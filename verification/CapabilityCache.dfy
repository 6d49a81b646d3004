/** The capability cache with single-flight discovery, over every interleaving of fetches and completions. */
module CapabilityCache {
  import opened Common
  import opened OrderedMap

  datatype Entry = Entry(capabilities: seq<string>, expiresAt: int)

  type Entries = seq<Slot<Entry>>

  /** The environment's TTL, already raised to at least 0, and maximum, already raised to at least 1. */
  datatype Config = Config(ttl: nat, max: nat)

  function Sweep(s: Entries, now: int): Entries {
    if s == [] then []
    else (if s[0].value.expiresAt <= now then [] else [s[0]]) + Sweep(s[1..], now)
  }

  /** Eviction from the oldest end; an empty key there stops it, because it is falsy. */
  function Evict(s: Entries, max: nat): Entries {
    if |s| <= max || s[0].key == "" then s else Evict(s[1..], max)
  }

  function Store(s: Entries, config: Config, key: string, capabilities: seq<string>, now: int): Entries {
    if config.ttl == 0 || capabilities == [] then s
    else Evict(Set(Sweep(s, now), key, Entry(capabilities, now + config.ttl)), config.max)
  }

  /** A store finds the cache still full after its sweep, with the empty key oldest. */
  predicate Overfills(s: Entries, config: Config, now: int) {
    var swept := Sweep(s, now);
    |swept| >= config.max && swept != [] && swept[0].key == ""
  }

  /** What a fetch finds. */
  datatype Found = Hit(capabilities: seq<string>) | Join(discovery: nat) | Miss

  /** The two module-level maps. */
  class Cache {
    var entries: Entries
    var inflight: map<string, nat>

    constructor ()
      ensures entries == [] && inflight == map[]
    {
      entries, inflight := [], map[];
    }

    method SweepCapabilityCache(now: int)
      modifies `entries
      ensures entries == Sweep(old(entries), now)
    {
      var s := entries;
      var kept: Entries := [];
      for i := 0 to |s|
        invariant kept + Sweep(s[i..], now) == Sweep(s, now)
      {
        assert s[i..][0] == s[i] && s[i..][1..] == s[i + 1..];
        if s[i].value.expiresAt > now {
          kept := kept + [s[i]];
        }
      }
      entries := kept;
    }

    method EnforceCacheMax(max: nat)
      modifies `entries
      ensures entries == Evict(old(entries), max)
    {
      while |entries| > max
        invariant Evict(entries, max) == Evict(old(entries), max)
      {
        if entries[0].key == "" {
          break;
        }
        entries := entries[1..];
      }
    }

    method RememberCapabilities(config: Config, key: string, capabilities: seq<string>, now: int)
      modifies `entries
      ensures entries == Store(old(entries), config, key, capabilities, now)
    {
      if config.ttl == 0 || capabilities == [] {
        return;
      }
      SweepCapabilityCache(now);
      entries := Set(entries, key, Entry(capabilities, now + config.ttl));
      EnforceCacheMax(config.max);
    }

    /** A fetch up to its first suspension; `next` names the discovery it starts if it finds nothing. */
    method Fetch(key: string, now: int, next: nat) returns (r: Found)
      modifies this
      ensures (entries, inflight, r) == Fetched(old(entries), old(inflight), key, now, next)
    {
      SweepCapabilityCache(now);
      var cached := Get(entries, key);
      if cached.Some? && cached.value.value.expiresAt > now {
        entries := Delete(entries, key);
        entries := Set(entries, key, cached.value.value);
        return Hit(cached.value.value.capabilities);
      }
      if key in inflight {
        return Join(inflight[key]);
      }
      inflight := inflight[key := next];
      r := Miss;
    }

    /** A discovery started at `startedAt` ends: on success its result is remembered, and its flight is over. */
    method Finish(config: Config, key: string, startedAt: int, outcome: Option<seq<string>>)
      modifies this
      ensures entries == if outcome.None? then old(entries)
                         else Store(old(entries), config, key, outcome.value, startedAt)
      ensures inflight == old(inflight) - {key}
    {
      if outcome.Some? {
        RememberCapabilities(config, key, outcome.value, startedAt);
      }
      inflight := inflight - {key};
    }
  }

  function Fetched(s: Entries, inflight: map<string, nat>, key: string, now: int, next: nat)
    : (Entries, map<string, nat>, Found)
  {
    var swept := Sweep(s, now);
    var cached := Get(swept, key);
    if cached.Some? && cached.value.value.expiresAt > now then
      (Set(Delete(swept, key), key, cached.value.value), inflight, Hit(cached.value.value.capabilities))
    else if key in inflight then (swept, inflight, Join(inflight[key]))
    else (swept, inflight[key := next], Miss)
  }

  // ---- Runs ----

  datatype Status = Running | Done(capabilities: seq<string>) | Failed

  /** Discoveries in the order they started. */
  datatype Discovery = Discovery(key: string, startedAt: int, status: Status)

  datatype State = State(entries: Entries, inflight: map<string, nat>, discoveries: seq<Discovery>, clock: int)

  /**
   * A fetch whose discovery does not suspend fails inside the call, before the caller has recorded the flight.
   * `Invalidated(None)` clears everything.
   */
  datatype Event =
    | Fetches(key: string, now: int, suspends: bool)
    | Finishes(discovery: nat, outcome: Option<seq<string>>, now: int)
    | Sweeps(now: int)
    | Invalidated(target: Option<string>, now: int)

  predicate CanStep(s: State, e: Event) {
    && e.now >= s.clock
    && (e.Finishes? ==> e.discovery < |s.discoveries| && s.discoveries[e.discovery].status.Running?)
  }

  function Step(s: State, config: Config, e: Event): State
    requires CanStep(s, e)
  {
    match e
    case Fetches(key, now, suspends) =>
      var next := |s.discoveries|;
      var (entries, inflight, found) := Fetched(s.entries, s.inflight, key, now, next);
      State(entries, inflight,
            if !found.Miss? then s.discoveries
            else s.discoveries + [Discovery(key, now, if suspends then Running else Failed)],
            now)
    case Finishes(d, outcome, now) =>
      var discovery := s.discoveries[d];
      var entries := if outcome.Some? then Store(s.entries, config, discovery.key, outcome.value, discovery.startedAt)
                     else s.entries;
      State(entries, s.inflight - {discovery.key},
            s.discoveries[d := discovery.(status := if outcome.Some? then Done(outcome.value) else Failed)], now)
    case Sweeps(now) => s.(entries := Sweep(s.entries, now), clock := now)
    case Invalidated(key, now) =>
      if key.Some? && key.value != "" then
        s.(entries := Delete(s.entries, key.value), inflight := s.inflight - {key.value}, clock := now)
      else s.(entries := [], inflight := map[], clock := now)
  }

  predicate CanRun(s: State, config: Config, events: seq<Event>)
    decreases |events|
  {
    events == [] || (CanStep(s, events[0]) && CanRun(Step(s, config, events[0]), config, events[1..]))
  }

  function Run(s: State, config: Config, events: seq<Event>): State
    requires CanRun(s, config, events)
    decreases |events|
  {
    if events == [] then s else Run(Step(s, config, events[0]), config, events[1..])
  }

  function Initial(clock: int): State {
    State([], map[], [], clock)
  }

  /** No explicit invalidation. */
  predicate Uninvalidated(events: seq<Event>) {
    forall i :: 0 <= i < |events| ==> !events[i].Invalidated?
  }

  // ---- The invariant ----

  /** `d` is the last discovery started for `key`. */
  predicate IsLast(discoveries: seq<Discovery>, key: string, d: nat) {
    && d < |discoveries| && discoveries[d].key == key
    && forall e :: d < e < |discoveries| ==> discoveries[e].key != key
  }

  /** A flight is the last discovery of its key and has not succeeded; every running discovery is a flight. */
  predicate FlightsRun(inflight: map<string, nat>, discoveries: seq<Discovery>) {
    && (forall k :: k in inflight ==> IsLast(discoveries, k, inflight[k]) && !discoveries[inflight[k]].status.Done?)
    && (forall d :: 0 <= d < |discoveries| && discoveries[d].status.Running? ==>
          discoveries[d].key in inflight && inflight[discoveries[d].key] == d)
  }

  /** A slot holds the result of the last discovery of its key, which started a TTL before the slot expires. */
  ghost predicate Backed(slot: Slot<Entry>, config: Config, discoveries: seq<Discovery>) {
    exists d: nat :: BackedBy(slot, config, discoveries, d)
  }

  predicate BackedBy(slot: Slot<Entry>, config: Config, discoveries: seq<Discovery>, d: nat) {
    && IsLast(discoveries, slot.key, d)
    && discoveries[d].status == Done(slot.value.capabilities) && slot.value.capabilities != []
    && slot.value.expiresAt == discoveries[d].startedAt + config.ttl
  }

  ghost predicate AllBacked(entries: Entries, config: Config, discoveries: seq<Discovery>) {
    forall i :: 0 <= i < |entries| ==> Backed(entries[i], config, discoveries)
  }

  predicate StartedBy(discoveries: seq<Discovery>, clock: int) {
    forall d :: 0 <= d < |discoveries| ==> discoveries[d].startedAt <= clock
  }

  ghost predicate Inv(s: State, config: Config) {
    && FlightsRun(s.inflight, s.discoveries)
    && UniqueKeys(s.entries) && AllBacked(s.entries, config, s.discoveries)
    && StartedBy(s.discoveries, s.clock)
  }

  // ---- Sweeping, evicting, storing ----

  lemma {:induction false} SweepMembers(s: Entries, now: int)
    ensures forall x :: x in Sweep(s, now) <==> x in s && x.value.expiresAt > now
    ensures |Sweep(s, now)| <= |s|
    decreases |s|
  {
    if s != [] {
      SweepMembers(s[1..], now);
      assert s == [s[0]] + s[1..];
    }
  }

  lemma {:induction false} SweepFacts(s: Entries, now: int)
    ensures forall x :: x in Sweep(s, now) <==> x in s && x.value.expiresAt > now
    ensures |Sweep(s, now)| <= |s|
    ensures UniqueKeys(s) ==> UniqueKeys(Sweep(s, now))
    decreases |s|
  {
    SweepMembers(s, now);
    if s != [] && UniqueKeys(s) {
      var rest := s[1..];
      assert forall i :: 0 <= i < |rest| ==> rest[i] == s[i + 1];
      SweepFacts(rest, now);
      var swept := Sweep(rest, now);
      forall j | 0 <= j < |swept| ensures swept[j].key != s[0].key {
        assert swept[j] in rest;
      }
    }
  }

  lemma {:induction false} EvictFacts(s: Entries, max: nat) returns (k: nat)
    ensures k <= |s| && Evict(s, max) == s[k..] && (k == 0 || |s| - k >= max)
    ensures s != [] && max >= 1 ==> k < |s|
    decreases |s|
  {
    if |s| <= max || s[0].key == "" {
      k := 0;
    } else {
      var rest := s[1..];
      var k' := EvictFacts(rest, max);
      k := k' + 1;
      assert rest[k'..] == s[k..];
    }
  }

  /** Eviction reaches the maximum exactly when none of the oldest entries it has to drop has an empty key. */
  lemma {:induction false} EvictReachesMaximumIff(s: Entries, max: nat)
    ensures |Evict(s, max)| <= max <==> forall i :: 0 <= i < |s| - max ==> s[i].key != ""
    decreases |s|
  {
    if |s| > max && s[0].key != "" {
      var rest := s[1..];
      EvictReachesMaximumIff(rest, max);
      assert forall i :: 0 <= i < |rest| - max ==> rest[i] == s[i + 1];
      assert forall i :: 1 <= i < |s| - max ==> s[i] == rest[i - 1];
    }
  }

  lemma SuffixKeepsUnique(s: Entries, k: nat)
    requires UniqueKeys(s) && k <= |s|
    ensures UniqueKeys(s[k..])
    ensures forall x :: x in s[k..] ==> x in s
  {
    assert forall i :: 0 <= i < |s[k..]| ==> s[k..][i] == s[k + i];
  }

  lemma HasIsMember(s: Entries, key: string)
    requires Has(s, key)
    ensures exists x :: x in s && x.key == key
  {
    var i :| 0 <= i < |s| && s[i].key == key;
    assert s[i] in s;
  }

  lemma AbsentIf(s: Entries, key: string)
    requires forall x :: x in s ==> x.key != key
    ensures !Has(s, key)
  {
    if Has(s, key) {
      HasIsMember(s, key);
    }
  }

  lemma AbsentFromSweep(s: Entries, key: string, now: int)
    requires !Has(s, key)
    ensures !Has(Sweep(s, now), key) && Get(Sweep(s, now), key).None?
  {
    SweepFacts(s, now);
    assert forall x :: x in s ==> x.key != key;
    AbsentIf(Sweep(s, now), key);
    GetFacts(Sweep(s, now), key);
  }

  /** A store of an absent key sweeps, appends, and drops from the oldest end. */
  lemma StoreAppends(s: Entries, config: Config, key: string, capabilities: seq<string>, now: int)
    requires !Has(s, key) && config.ttl > 0 && capabilities != []
    ensures Store(s, config, key, capabilities, now)
            == Evict(Sweep(s, now) + [Slot(key, Entry(capabilities, now + config.ttl))], config.max)
  {
    AbsentFromSweep(s, key, now);
    SetAbsent(Sweep(s, now), key, Entry(capabilities, now + config.ttl));
  }

  /** It puts the new entry last and keeps it; everything else that stays was there before. */
  lemma StoreFacts(s: Entries, config: Config, key: string, capabilities: seq<string>, now: int)
    requires UniqueKeys(s) && !Has(s, key) && config.max >= 1 && config.ttl > 0 && capabilities != []
    ensures var stored := Store(s, config, key, capabilities, now);
            var slot := Slot(key, Entry(capabilities, now + config.ttl));
            && stored != [] && stored[|stored| - 1] == slot
            && UniqueKeys(stored)
            && (forall x :: x in stored ==> x == slot || x in s)
            && (|s| <= config.max ==> (|stored| <= config.max <==> !Overfills(s, config, now)))
  {
    hide Store, Evict, Sweep, Set, Get, Has, UniqueKeys;
    StoreAppends(s, config, key, capabilities, now);
    SweepFacts(s, now);
    AbsentFromSweep(s, key, now);
    var slot := Slot(key, Entry(capabilities, now + config.ttl));
    var all := Sweep(s, now) + [slot];
    AppendKeepsUnique(Sweep(s, now), slot);
    var k := EvictFacts(all, config.max);
    SuffixKeepsUnique(all, k);
    EvictReachesMaximumIff(all, config.max);
    if |s| <= config.max < |all| {
      assert all[0] == Sweep(s, now)[0];
      assert (forall i :: 0 <= i < |all| - config.max ==> all[i].key != "") <==> all[0].key != "";
    }
  }

  // ---- Each step keeps the invariant ----

  lemma BackedElsewhere(slot: Slot<Entry>, config: Config, before: seq<Discovery>, after: seq<Discovery>, changed: nat)
    requires Backed(slot, config, before)
    requires changed <= |before| && |before| <= |after| && (changed == |before| ==> |after| == |before| + 1)
    requires changed < |before| ==> |after| == |before| && after[changed].key == before[changed].key
    requires changed == |before| ==> after[changed].key != slot.key
    requires changed < |before| ==> before[changed].status.Running?
    requires forall d :: 0 <= d < |before| && d != changed ==> after[d] == before[d]
    ensures Backed(slot, config, after)
  {
    var d: nat :| BackedBy(slot, config, before, d);
    assert d != changed;
    assert BackedBy(slot, config, after, d);
  }

  /** A key in flight has no slot. */
  lemma InFlightNotCached(s: State, config: Config, key: string)
    requires Inv(s, config) && key in s.inflight
    ensures !Has(s.entries, key)
  {
    forall i | 0 <= i < |s.entries| ensures s.entries[i].key != key {
      assert Backed(s.entries[i], config, s.discoveries);
    }
  }

  lemma SweepKeepsBacked(s: State, config: Config, now: int)
    requires Inv(s, config)
    ensures var swept := Sweep(s.entries, now);
            UniqueKeys(swept) && AllBacked(swept, config, s.discoveries) && |swept| <= |s.entries|
  {
    SweepFacts(s.entries, now);
    var swept := Sweep(s.entries, now);
    forall i | 0 <= i < |swept| ensures Backed(swept[i], config, s.discoveries) {
      assert swept[i] in s.entries;
    }
  }

  lemma SameKeysSameLast(before: seq<Discovery>, after: seq<Discovery>, key: string, d: nat)
    requires |before| == |after| && forall e :: 0 <= e < |before| ==> before[e].key == after[e].key
    ensures IsLast(before, key, d) == IsLast(after, key, d)
  {
  }

  lemma FinishKeepsFlights(inflight: map<string, nat>, before: seq<Discovery>, d: nat, status: Status)
    requires FlightsRun(inflight, before) && d < |before| && before[d].status.Running? && !status.Running?
    ensures FlightsRun(inflight - {before[d].key}, before[d := before[d].(status := status)])
  {
    var after := before[d := before[d].(status := status)];
    forall k | k in inflight && k != before[d].key ensures IsLast(after, k, inflight[k]) {
      SameKeysSameLast(before, after, k, inflight[k]);
    }
  }

  lemma FinishKeepsInv(s: State, config: Config, e: Event)
    requires Inv(s, config) && e.Finishes? && CanStep(s, e) && config.max >= 1
    ensures Inv(Step(s, config, e), config)
  {
    hide Backed, Store, FlightsRun, UniqueKeys, Has, IsLast;
    var d, discovery := e.discovery, s.discoveries[e.discovery];
    var key := discovery.key;
    var s' := Step(s, config, e);
    FlightOf(s, d);
    InFlightNotCached(s, config, key);
    FinishKeepsFlights(s.inflight, s.discoveries, d, s'.discoveries[d].status);
    SameKeysSameLast(s.discoveries, s'.discoveries, key, d);
    forall x | x in s.entries ensures Backed(x, config, s'.discoveries) {
      BackedElsewhere(x, config, s.discoveries, s'.discoveries, d);
    }
    if e.outcome.Some? && config.ttl > 0 && e.outcome.value != [] {
      StoreFacts(s.entries, config, key, e.outcome.value, discovery.startedAt);
      NowBacked(Slot(key, Entry(e.outcome.value, discovery.startedAt + config.ttl)), config, s'.discoveries, d);
    } else {
      StoreNothing(s.entries, config, key, e.outcome, discovery.startedAt);
    }
  }

  lemma FlightOf(s: State, d: nat)
    requires FlightsRun(s.inflight, s.discoveries) && d < |s.discoveries| && s.discoveries[d].status.Running?
    ensures s.discoveries[d].key in s.inflight && IsLast(s.discoveries, s.discoveries[d].key, d)
  {
  }

  lemma NowBacked(slot: Slot<Entry>, config: Config, discoveries: seq<Discovery>, d: nat)
    requires BackedBy(slot, config, discoveries, d)
    ensures Backed(slot, config, discoveries)
  {
  }

  lemma StoreNothing(s: Entries, config: Config, key: string, outcome: Option<seq<string>>, now: int)
    requires outcome.Some? ==> config.ttl == 0 || outcome.value == []
    ensures outcome.Some? ==> Store(s, config, key, outcome.value, now) == s
  {
  }

  /** A hit moves its slot to the end. */
  lemma HitMoves(s: Entries, key: string)
    requires UniqueKeys(s) && Get(s, key).Some?
    ensures var moved := Set(Delete(s, key), key, Get(s, key).value.value);
            && moved == Delete(s, key) + [Get(s, key).value]
            && UniqueKeys(moved) && |moved| == |s| && forall x :: x in moved ==> x in s
  {
    hide Set, Delete, Get, UniqueKeys, Has;
    GetFacts(s, key);
    DeleteFacts(s, key);
    SetAbsent(Delete(s, key), key, Get(s, key).value.value);
    AppendKeepsUnique(Delete(s, key), Get(s, key).value);
  }

  lemma FetchKeepsInv(s: State, config: Config, e: Event)
    requires Inv(s, config) && e.Fetches? && CanStep(s, e)
    ensures Inv(Step(s, config, e), config)
  {
    hide Backed, FlightsRun, UniqueKeys, Has, Sweep, Get, Set, Delete, IsLast;
    var s' := Step(s, config, e);
    var swept := Sweep(s.entries, e.now);
    SweepKeepsBacked(s, config, e.now);
    SweepFacts(s.entries, e.now);
    GetFacts(swept, e.key);
    if Get(swept, e.key).Some? {
      HitMoves(swept, e.key);
      forall i | 0 <= i < |s'.entries| ensures Backed(s'.entries[i], config, s'.discoveries) {
        assert s'.entries[i] in swept;
      }
    } else if e.key !in s.inflight {
      forall i | 0 <= i < |swept| ensures Backed(swept[i], config, s'.discoveries) {
        assert swept[i].key != e.key by {
          OtherKey(swept, e.key, i);
        }
        BackedElsewhere(swept[i], config, s.discoveries, s'.discoveries, |s.discoveries|);
      }
      MissKeepsFlights(s, e.key, e.now, if e.suspends then Running else Failed);
    }
  }

  lemma OtherKey(s: Entries, key: string, i: nat)
    requires !Has(s, key) && i < |s|
    ensures s[i].key != key
  {
  }

  lemma MissKeepsFlights(s: State, key: string, now: int, status: Status)
    requires FlightsRun(s.inflight, s.discoveries) && key !in s.inflight && !status.Done?
    ensures FlightsRun(s.inflight[key := |s.discoveries|], s.discoveries + [Discovery(key, now, status)])
  {
    var after := s.discoveries + [Discovery(key, now, status)];
    forall k | k in s.inflight ensures IsLast(after, k, s.inflight[k]) {
      assert IsLast(s.discoveries, k, s.inflight[k]);
    }
  }

  lemma StepKeepsInv(s: State, config: Config, e: Event)
    requires Inv(s, config) && CanStep(s, e) && config.max >= 1 && Uninvalidated([e])
    ensures Inv(Step(s, config, e), config)
  {
    assert !([e][0]).Invalidated?;
    match e {
      case Fetches(_, _, _) => FetchKeepsInv(s, config, e);
      case Finishes(_, _, _) => FinishKeepsInv(s, config, e);
      case Sweeps(now) => SweepKeepsBacked(s, config, now);
      case Invalidated(_, _) =>
    }
  }

  lemma {:induction false} RunKeepsInv(s: State, config: Config, events: seq<Event>)
    requires Inv(s, config) && CanRun(s, config, events) && config.max >= 1 && Uninvalidated(events)
    ensures Inv(Run(s, config, events), config)
    decreases |events|
  {
    hide Inv, Step, CanStep;
    if events != [] {
      StepKeepsInv(s, config, events[0]);
      RunKeepsInv(Step(s, config, events[0]), config, events[1..]);
    }
  }

  // ---- Main results ----

  /** Without explicit invalidation at most one discovery per key is running. */
  lemma SingleFlight(config: Config, clock: int, events: seq<Event>, d: nat, e: nat)
    requires config.max >= 1 && CanRun(Initial(clock), config, events) && Uninvalidated(events)
    requires var s := Run(Initial(clock), config, events);
             && d < |s.discoveries| && e < |s.discoveries| && s.discoveries[d].key == s.discoveries[e].key
             && s.discoveries[d].status.Running? && s.discoveries[e].status.Running?
    ensures d == e
  {
    RunKeepsInv(Initial(clock), config, events);
  }

  /**
   * A fetch that joins a flight joins the last discovery of its key, which is running unless it failed before
   * it suspended.
   */
  lemma JoinsLastDiscovery(config: Config, clock: int, events: seq<Event>, key: string, now: int)
    requires config.max >= 1 && CanRun(Initial(clock), config, events) && Uninvalidated(events)
    ensures var s := Run(Initial(clock), config, events);
            var found := Fetched(s.entries, s.inflight, key, now, |s.discoveries|).2;
            found.Join? ==>
              && IsLast(s.discoveries, key, found.discovery)
              && (s.discoveries[found.discovery].status.Running? <==> !FailsEarly(Initial(clock), config, events, key))
  {
    RunKeepsInv(Initial(clock), config, events);
    PoisonedIff(Initial(clock), config, events, key);
  }

  /**
   * Every hit returns the non-empty result of the last discovery of its key, which started less than one TTL
   * earlier.
   */
  lemma HitIsLastResult(config: Config, clock: int, events: seq<Event>, key: string, now: int) returns (d: nat)
    requires config.max >= 1 && CanRun(Initial(clock), config, events) && Uninvalidated(events)
    requires now >= Run(Initial(clock), config, events).clock
    requires var s := Run(Initial(clock), config, events);
             Fetched(s.entries, s.inflight, key, now, |s.discoveries|).2.Hit?
    ensures var s := Run(Initial(clock), config, events);
            var capabilities := Fetched(s.entries, s.inflight, key, now, |s.discoveries|).2.capabilities;
            && IsLast(s.discoveries, key, d) && s.discoveries[d].status == Done(capabilities) && capabilities != []
            && s.discoveries[d].startedAt <= now < s.discoveries[d].startedAt + config.ttl
  {
    var s := Run(Initial(clock), config, events);
    RunKeepsInv(Initial(clock), config, events);
    SweepKeepsBacked(s, config, now);
    var swept := Sweep(s.entries, now);
    GetFacts(swept, key);
    var slot := Get(swept, key).value;
    assert Backed(slot, config, s.discoveries);
    d :| BackedBy(slot, config, s.discoveries, d);
  }

  /** A finishing discovery stores its result into a cache that is full behind an empty oldest key. */
  predicate StoresOverfull(s: State, config: Config, e: Event)
    requires CanStep(s, e)
  {
    && e.Finishes? && e.outcome.Some? && e.outcome.value != [] && config.ttl > 0
    && Overfills(s.entries, config, s.discoveries[e.discovery].startedAt)
  }

  predicate NeverOverfull(s: State, config: Config, events: seq<Event>)
    requires CanRun(s, config, events)
    decreases |events|
  {
    events == [] ||
    (!StoresOverfull(s, config, events[0]) && NeverOverfull(Step(s, config, events[0]), config, events[1..]))
  }

  /** The size is within the maximum in every state of the run. */
  predicate AlwaysWithinMaximum(s: State, config: Config, events: seq<Event>)
    requires CanRun(s, config, events)
    decreases |events|
  {
    |s.entries| <= config.max &&
    (events == [] || AlwaysWithinMaximum(Step(s, config, events[0]), config, events[1..]))
  }

  lemma StepWithinMaximumIff(s: State, config: Config, e: Event)
    requires Inv(s, config) && CanStep(s, e) && config.max >= 1 && !e.Invalidated? && |s.entries| <= config.max
    ensures |Step(s, config, e).entries| <= config.max <==> !StoresOverfull(s, config, e)
  {
    hide Store, Sweep, Get, Set, Delete, UniqueKeys, Has, Backed, FlightsRun, Overfills, IsLast;
    match e {
      case Fetches(key, now, _) =>
        SweepKeepsBacked(s, config, now);
        GetFacts(Sweep(s.entries, now), key);
        if Get(Sweep(s.entries, now), key).Some? {
          HitMoves(Sweep(s.entries, now), key);
        }
      case Finishes(d, outcome, _) =>
        var discovery := s.discoveries[d];
        FlightOf(s, d);
        InFlightNotCached(s, config, discovery.key);
        if outcome.Some? && outcome.value != [] && config.ttl > 0 {
          StoreFacts(s.entries, config, discovery.key, outcome.value, discovery.startedAt);
        } else {
          StoreNothing(s.entries, config, discovery.key, outcome, discovery.startedAt);
        }
      case Sweeps(now) => SweepKeepsBacked(s, config, now);
      case Invalidated(_, _) =>
    }
  }

  /**
   * The size stays within the maximum throughout a run exactly when no store meets a full cache behind an empty
   * key.
   */
  lemma {:induction false} SizeWithinMaximumIff(s: State, config: Config, events: seq<Event>)
    requires Inv(s, config) && CanRun(s, config, events) && config.max >= 1 && Uninvalidated(events)
    requires |s.entries| <= config.max
    ensures AlwaysWithinMaximum(s, config, events) <==> NeverOverfull(s, config, events)
    decreases |events|
  {
    hide Inv, Step, CanStep, StoresOverfull;
    if events != [] {
      StepWithinMaximumIff(s, config, events[0]);
      StepKeepsInv(s, config, events[0]);
      if !StoresOverfull(s, config, events[0]) {
        SizeWithinMaximumIff(Step(s, config, events[0]), config, events[1..]);
      }
    }
  }

  /** No discovery was made for the empty key. */
  predicate NoEmptyKey(discoveries: seq<Discovery>) {
    forall d :: 0 <= d < |discoveries| ==> discoveries[d].key != ""
  }

  lemma StepNamesKeys(s: State, config: Config, e: Event)
    requires Inv(s, config) && CanStep(s, e) && config.max >= 1 && NoEmptyKey(Step(s, config, e).discoveries)
    ensures NoEmptyKey(s.discoveries) && !StoresOverfull(s, config, e)
  {
    hide Store, Fetched;
    var after := Step(s, config, e).discoveries;
    assert forall d :: 0 <= d < |s.discoveries| ==> s.discoveries[d].key == after[d].key;
    if e.Finishes? {
      var startedAt := s.discoveries[e.discovery].startedAt;
      SweepMembers(s.entries, startedAt);
      forall x | x in s.entries ensures x.key != "" {
        assert Backed(x, config, s.discoveries);
      }
      assert Sweep(s.entries, startedAt) != [] ==> Sweep(s.entries, startedAt)[0] in s.entries;
    }
  }

  lemma {:induction false} NamedNeverOverfull(s: State, config: Config, events: seq<Event>)
    requires Inv(s, config) && CanRun(s, config, events) && config.max >= 1 && Uninvalidated(events)
    requires NoEmptyKey(Run(s, config, events).discoveries)
    ensures NoEmptyKey(s.discoveries) && NeverOverfull(s, config, events)
    decreases |events|
  {
    hide Inv, Step, CanStep, StoresOverfull, NoEmptyKey;
    if events != [] {
      StepKeepsInv(s, config, events[0]);
      NamedNeverOverfull(Step(s, config, events[0]), config, events[1..]);
      StepNamesKeys(s, config, events[0]);
    }
  }

  lemma {:induction false} EndsWithinMaximum(s: State, config: Config, events: seq<Event>)
    requires CanRun(s, config, events) && AlwaysWithinMaximum(s, config, events)
    ensures |Run(s, config, events).entries| <= config.max
    decreases |events|
  {
    hide Step, CanStep;
    if events != [] {
      EndsWithinMaximum(Step(s, config, events[0]), config, events[1..]);
    }
  }

  /**
   * No stored list is empty, and the size is within the maximum after every run whose stores never meet that
   * case, which includes every run without a discovery for the empty key.
   */
  lemma StoredWithinBounds(config: Config, clock: int, events: seq<Event>)
    requires config.max >= 1 && CanRun(Initial(clock), config, events) && Uninvalidated(events)
    ensures var s := Run(Initial(clock), config, events);
            && (forall x :: x in s.entries ==> x.value.capabilities != [])
            && (NeverOverfull(Initial(clock), config, events) ==> |s.entries| <= config.max)
            && (NoEmptyKey(s.discoveries) ==> NeverOverfull(Initial(clock), config, events))
  {
    var s := Run(Initial(clock), config, events);
    RunKeepsInv(Initial(clock), config, events);
    forall x | x in s.entries ensures x.value.capabilities != [] {
      assert Backed(x, config, s.discoveries);
    }
    SizeWithinMaximumIff(Initial(clock), config, events);
    if NeverOverfull(Initial(clock), config, events) {
      EndsWithinMaximum(Initial(clock), config, events);
    }
    if NoEmptyKey(s.discoveries) {
      NamedNeverOverfull(Initial(clock), config, events);
    }
  }

  /** Such a run exists: with room for one entry, the empty key and then any other. */
  lemma EmptyKeyExceedsMaximum(ttl: nat, key: string, capabilities: seq<string>)
    requires ttl > 0 && key != "" && capabilities != []
    ensures var events := [Fetches("", 0, true), Fetches(key, 0, true),
                           Finishes(0, Some(capabilities), 0), Finishes(1, Some(capabilities), 0)];
            && CanRun(Initial(0), Config(ttl, 1), events)
            && |Run(Initial(0), Config(ttl, 1), events).entries| == 2
  {
    var config := Config(ttl, 1);
    var e0, e1 := Fetches("", 0, true), Fetches(key, 0, true);
    var e2, e3 := Finishes(0, Some(capabilities), 0), Finishes(1, Some(capabilities), 0);
    var s1 := Step(Initial(0), config, e0);
    assert s1 == State([], map["" := 0], [Discovery("", 0, Running)], 0);
    var s2 := Step(s1, config, e1);
    assert s2 == State([], map["" := 0, key := 1], [Discovery("", 0, Running), Discovery(key, 0, Running)], 0);
    var s3 := Step(s2, config, e2);
    assert s3.entries == [Slot("", Entry(capabilities, ttl))] && s3.clock == 0;
    assert s3.discoveries[1] == Discovery(key, 0, Running) && |s3.discoveries| == 2;
    assert Sweep(s3.entries, 0) == s3.entries by {
      assert s3.entries[1..] == [];
    }
    assert !Has(s3.entries, key);
    SetAbsent(s3.entries, key, Entry(capabilities, ttl));
    var s4 := Step(s3, config, e3);
    assert |s4.entries| == 2;
    var events := [e0, e1, e2, e3];
    assert events[1..] == [e1, e2, e3] && [e1, e2, e3][1..] == [e2, e3] && [e2, e3][1..] == [e3] && [e3][1..] == [];
    assert CanRun(s4, config, []) && CanRun(s3, config, [e3]);
    assert CanRun(s2, config, [e2, e3]) && CanRun(s1, config, [e1, e2, e3]);
    assert Run(s1, config, [e1, e2, e3]) == Run(s2, config, [e2, e3]) == Run(s3, config, [e3]) == s4;
  }

  lemma FinishedEntryIsLast(s: State, config: Config, e: Event)
    requires Inv(s, config) && CanStep(s, e) && config.max >= 1
    requires e.Finishes? && e.outcome.Some? && e.outcome.value != [] && config.ttl > 0
    ensures var entries := Step(s, config, e).entries;
            var discovery := s.discoveries[e.discovery];
            && entries != []
            && entries[|entries| - 1] == Slot(discovery.key, Entry(e.outcome.value, discovery.startedAt + config.ttl))
  {
    hide UniqueKeys, Has, Store, IsLast, Backed, FlightsRun;
    var discovery := s.discoveries[e.discovery];
    FlightOf(s, e.discovery);
    InFlightNotCached(s, config, discovery.key);
    StoreFacts(s.entries, config, discovery.key, e.outcome.value, discovery.startedAt);
  }

  /** The entry a finished discovery stores is the newest and is never the one evicted. */
  lemma NewEntryStays(config: Config, clock: int, events: seq<Event>, e: Event)
    requires config.max >= 1 && CanRun(Initial(clock), config, events) && Uninvalidated(events)
    requires CanStep(Run(Initial(clock), config, events), e)
    requires e.Finishes? && e.outcome.Some? && e.outcome.value != [] && config.ttl > 0
    ensures var s := Run(Initial(clock), config, events);
            var entries := Step(s, config, e).entries;
            var discovery := s.discoveries[e.discovery];
            && entries != []
            && entries[|entries| - 1] == Slot(discovery.key, Entry(e.outcome.value, discovery.startedAt + config.ttl))
  {
    hide Step;
    RunKeepsInv(Initial(clock), config, events);
    FinishedEntryIsLast(Run(Initial(clock), config, events), config, e);
  }

  /** An explicit invalidation forgets its key in both maps, or every key when it names none, and nothing else. */
  lemma InvalidationForgets(s: State, config: Config, e: Event, key: string)
    requires UniqueKeys(s.entries) && e.Invalidated? && CanStep(s, e)
    ensures var t := Step(s, config, e);
            && t.discoveries == s.discoveries && t.clock == e.now
            && if e.target.None? || e.target.value == "" || e.target.value == key then
                 key !in t.inflight && Get(t.entries, key).None?
               else
                 && Get(t.entries, key) == Get(s.entries, key)
                 && (key in t.inflight <==> key in s.inflight)
                 && (key in s.inflight ==> t.inflight[key] == s.inflight[key])
  {
    if e.target.Some? && e.target.value != "" {
      DeleteFacts(s.entries, e.target.value);
      GetFacts(Delete(s.entries, e.target.value), key);
      if e.target.value != key {
        GetOther(s.entries, e.target.value, key);
      }
    }
  }

  /** A sweep drops exactly the entries that have expired. */
  lemma SweepDropsExpired(s: State, config: Config, e: Event)
    requires e.Sweeps? && CanStep(s, e)
    ensures var t := Step(s, config, e);
            && (forall x :: x in t.entries <==> x in s.entries && x.value.expiresAt > e.now)
            && t == s.(entries := t.entries, clock := e.now)
  {
    SweepMembers(s.entries, e.now);
  }

  // ---- The order of use ----

  /** A slot of `key` has not expired. */
  predicate HasLive(s: Entries, key: string, now: int) {
    exists i :: 0 <= i < |s| && s[i].key == key && s[i].value.expiresAt > now
  }

  /** The discovery that ends has something to store. */
  predicate Stores(config: Config, e: Event) {
    e.Finishes? && e.outcome.Some? && e.outcome.value != [] && config.ttl > 0
  }

  /** The key an event uses, if any: one that a fetch finds cached, or one that is stored. */
  function Use(s: State, config: Config, e: Event): seq<string>
    requires CanStep(s, e)
  {
    if e.Fetches? && HasLive(s.entries, e.key, e.now) then [e.key]
    else if Stores(config, e) then [s.discoveries[e.discovery].key]
    else []
  }

  /** The keys used, in order, when those of `uses` were used before. */
  function UsesOf(uses: seq<string>, s: State, config: Config, events: seq<Event>): seq<string>
    requires CanRun(s, config, events)
    decreases |events|
  {
    if events == [] then uses
    else UsesOf(uses + Use(s, config, events[0]), Step(s, config, events[0]), config, events[1..])
  }

  /** A slot of `key` stands with others behind it. */
  predicate Buried(s: Entries, key: string) {
    exists i :: 0 <= i < |s| - 1 && s[i].key == key
  }

  /**
   * A store that finds its own key cached overwrites that slot where it stands, in front of slots used earlier,
   * unless the eviction that follows drops it.
   */
  predicate Misplaces(s: State, config: Config, e: Event)
    requires CanStep(s, e)
  {
    && Stores(config, e)
    && var d := s.discoveries[e.discovery];
       Buried(Sweep(s.entries, d.startedAt), d.key) && Has(Step(s, config, e).entries, d.key)
  }

  lemma {:induction false} SweepKeepsUse(s: Entries, uses: seq<string>, now: int)
    requires ByUse(s, uses)
    ensures ByUse(Sweep(s, now), uses)
    decreases |s|
  {
    if s != [] {
      var rest := s[1..];
      UseOfKeys(s, s, uses, 1);
      SweepKeepsUse(rest, uses, now);
      SweepMembers(rest, now);
      PrependKeepsUse(s, Sweep(rest, now), uses);
    }
  }

  lemma PrependKeepsUse(s: Entries, later: Entries, uses: seq<string>)
    requires s != [] && ByUse(s, uses) && ByUse(later, uses) && forall x :: x in later ==> x in s[1..]
    ensures ByUse([s[0]] + later, uses)
  {
    hide LastUse;
    forall j | 0 <= j < |later| ensures LastUse(uses, s[0].key) < LastUse(uses, later[j].key) {
      assert later[j] in s[1..];
      var i :| 0 <= i < |s[1..]| && s[1..][i] == later[j];
      assert s[1..][i] == s[i + 1];
    }
  }

  lemma ByUseIsUnique(s: Entries, uses: seq<string>)
    requires ByUse(s, uses)
    ensures UniqueKeys(s)
  {
  }

  lemma LiveIffSwept(s: Entries, key: string, now: int)
    ensures HasLive(s, key, now) <==> Get(Sweep(s, now), key).Some?
    ensures Get(Sweep(s, now), key).Some? ==> Get(Sweep(s, now), key).value.value.expiresAt > now
  {
    var swept := Sweep(s, now);
    SweepMembers(s, now);
    GetFacts(swept, key);
    if i :| 0 <= i < |s| && s[i].key == key && s[i].value.expiresAt > now {
      assert s[i] in swept;
      var j :| 0 <= j < |swept| && swept[j] == s[i];
      assert Has(swept, key);
    }
    if Get(swept, key).Some? {
      var slot := Get(swept, key).value;
      var i :| 0 <= i < |s| && s[i] == slot;
    }
  }

  /** What a fetch finds: the live entry of its key, else the flight, else nothing; and a find moves to the end. */
  lemma FetchKeepsUse(s: State, uses: seq<string>, config: Config, e: Event)
    requires ByUse(s.entries, uses) && e.Fetches? && CanStep(s, e)
    ensures ByUse(Step(s, config, e).entries, uses + Use(s, config, e))
  {
    hide ByUse, Sweep, Get, Set, Delete, Has, UniqueKeys;
    var swept := Sweep(s.entries, e.now);
    SweepKeepsUse(s.entries, uses, e.now);
    LiveIffSwept(s.entries, e.key, e.now);
    assert uses + [] == uses;
    if Get(swept, e.key).Some? {
      GetFacts(swept, e.key);
      ByUseIsUnique(swept, uses);
      HitMoves(swept, e.key);
      DeleteKeepsUse(swept, uses, e.key);
      AppendKeepsUse(Delete(swept, e.key), uses, Get(swept, e.key).value);
    }
  }

  lemma StoreKeepsUseIff(
      s: Entries, uses: seq<string>, config: Config, key: string, capabilities: seq<string>, now: int)
    requires ByUse(s, uses) && config.max >= 1 && config.ttl > 0 && capabilities != []
    ensures var stored := Store(s, config, key, capabilities, now);
            ByUse(stored, uses + [key]) <==> !(Buried(Sweep(s, now), key) && Has(stored, key))
  {
    hide ByUse, Sweep, Set, Evict, Has, Get;
    var swept, slot := Sweep(s, now), Slot(key, Entry(capabilities, now + config.ttl));
    SweepKeepsUse(s, uses, now);
    var all := Set(swept, key, slot.value);
    var k := EvictFacts(all, config.max);
    if i: nat :| i < |swept| && swept[i].key == key {
      ByUseIsUnique(swept, uses);
      SetPresent(swept, key, slot.value, i);
      OverwriteKeepsUseIff(swept, uses, slot, i, k);
    } else {
      AbsentIf(swept, key);
      assert !Buried(swept, key);
      SetAbsent(swept, key, slot.value);
      AppendKeepsUse(swept, uses, slot);
      UseOfKeys(all, all, uses + [key], k);
    }
  }

  lemma OverwriteKeepsUseIff(swept: Entries, uses: seq<string>, slot: Slot<Entry>, i: nat, k: nat)
    requires ByUse(swept, uses) && i < |swept| && swept[i].key == slot.key && k < |swept|
    ensures var stored := swept[i := slot][k..];
            ByUse(stored, uses + [slot.key]) <==> !(Buried(swept, slot.key) && Has(stored, slot.key))
  {
    var all := swept[i := slot];
    var stored, n := all[k..], |swept|;
    ByUseIsUnique(swept, uses);
    if i == n - 1 {
      UseOfKeys(swept, swept, uses, 0);
      assert all == swept[..i] + [slot];
      FrontKeepsUse(swept, uses, i);
      AppendKeepsUse(swept[..i], uses, slot);
      UseOfKeys(all, all, uses + [slot.key], k);
    } else if k > i {
      UseOfKeys(swept, all, uses, k);
      UseElsewhere(stored, uses, slot.key);
    } else {
      assert stored[i - k] == slot && stored[|stored| - 1] == swept[n - 1];
      LastUseAppend(uses, slot.key, slot.key);
      LastUseAppend(uses, slot.key, swept[n - 1].key);
    }
  }

  lemma FrontKeepsUse(s: Entries, uses: seq<string>, k: nat)
    requires ByUse(s, uses) && k < |s|
    ensures ByUse(s[..k], uses) && !Has(s[..k], s[k].key)
  {
  }

  /** An event keeps the entries in the order of use exactly when it does not misplace one. */
  lemma StepKeepsUseIff(s: State, uses: seq<string>, config: Config, e: Event)
    requires ByUse(s.entries, uses) && CanStep(s, e) && config.max >= 1
    ensures ByUse(Step(s, config, e).entries, uses + Use(s, config, e)) <==> !Misplaces(s, config, e)
  {
    hide ByUse, Sweep, Store, Has, Delete, Buried;
    assert uses + [] == uses;
    match e {
      case Fetches(_, _, _) => FetchKeepsUse(s, uses, config, e);
      case Finishes(d, outcome, _) =>
        var discovery := s.discoveries[d];
        if Stores(config, e) {
          StoreKeepsUseIff(s.entries, uses, config, discovery.key, outcome.value, discovery.startedAt);
        } else {
          StoreNothing(s.entries, config, discovery.key, outcome, discovery.startedAt);
        }
      case Sweeps(now) => SweepKeepsUse(s.entries, uses, now);
      case Invalidated(target, _) =>
        if target.Some? && target.value != "" {
          DeleteKeepsUse(s.entries, uses, target.value);
        } else {
          NothingUsed(uses);
        }
    }
  }

  lemma NothingUsed(uses: seq<string>)
    ensures ByUse<Entry>([], uses)
  {
  }

  predicate NeverMisplaces(s: State, config: Config, events: seq<Event>)
    requires CanRun(s, config, events)
    decreases |events|
  {
    events == [] ||
    (!Misplaces(s, config, events[0]) && NeverMisplaces(Step(s, config, events[0]), config, events[1..]))
  }

  predicate AlwaysByUse(uses: seq<string>, s: State, config: Config, events: seq<Event>)
    requires CanRun(s, config, events)
    decreases |events|
  {
    ByUse(s.entries, uses) &&
    (events == [] ||
     AlwaysByUse(uses + Use(s, config, events[0]), Step(s, config, events[0]), config, events[1..]))
  }

  /** The entries stand in the order of their last use throughout a run exactly when no store misplaces one. */
  lemma {:induction false} EntriesByUseIff(uses: seq<string>, s: State, config: Config, events: seq<Event>)
    requires ByUse(s.entries, uses) && CanRun(s, config, events) && config.max >= 1
    ensures AlwaysByUse(uses, s, config, events) <==> NeverMisplaces(s, config, events)
    ensures NeverMisplaces(s, config, events) ==>
              ByUse(Run(s, config, events).entries, UsesOf(uses, s, config, events))
    decreases |events|
  {
    hide Step, CanStep, ByUse, Misplaces, Use;
    if events != [] {
      StepKeepsUseIff(s, uses, config, events[0]);
      if !Misplaces(s, config, events[0]) {
        EntriesByUseIff(uses + Use(s, config, events[0]), Step(s, config, events[0]), config, events[1..]);
      } else {
        NotByUseNow(uses + Use(s, config, events[0]), Step(s, config, events[0]), config, events[1..]);
      }
    }
  }

  lemma NotByUseNow(uses: seq<string>, s: State, config: Config, events: seq<Event>)
    requires CanRun(s, config, events) && !ByUse(s.entries, uses)
    ensures !AlwaysByUse(uses, s, config, events)
  {
  }

  /** Without explicit invalidation none does, because a key with a discovery under way is not cached. */
  lemma {:induction false} UninvalidatedNeverMisplaces(s: State, config: Config, events: seq<Event>)
    requires Inv(s, config) && CanRun(s, config, events) && config.max >= 1 && Uninvalidated(events)
    ensures NeverMisplaces(s, config, events)
    decreases |events|
  {
    hide Inv, Step, CanStep, Misplaces;
    if events != [] {
      StepNeverMisplaces(s, config, events[0]);
      StepKeepsInv(s, config, events[0]);
      UninvalidatedNeverMisplaces(Step(s, config, events[0]), config, events[1..]);
    }
  }

  lemma StepNeverMisplaces(s: State, config: Config, e: Event)
    requires Inv(s, config) && CanStep(s, e)
    ensures !Misplaces(s, config, e)
  {
    hide UniqueKeys, AllBacked, Store, IsLast;
    if Stores(config, e) {
      FlightOf(s, e.discovery);
      var discovery := s.discoveries[e.discovery];
      InFlightNotCached(s, config, discovery.key);
      AbsentFromSweep(s.entries, discovery.key, discovery.startedAt);
    }
  }

  lemma StoreEvictsOldest(
      s: Entries, uses: seq<string>, config: Config, key: string, capabilities: seq<string>, now: int)
    requires ByUse(s, uses) && config.max >= 1 && config.ttl > 0 && capabilities != []
    ensures var left := Store(s, config, key, capabilities, now);
            forall x, y :: x in s && x.value.expiresAt > now && x.key != key && x !in left && y in left ==>
              |left| >= config.max && LastUse(uses + [key], x.key) < LastUse(uses + [key], y.key)
  {
    hide Sweep, Set, Evict, Has, ByUse, LastUse;
    var swept, slot := Sweep(s, now), Slot(key, Entry(capabilities, now + config.ttl));
    SweepMembers(s, now);
    SweepKeepsUse(s, uses, now);
    ByUseIsUnique(swept, uses);
    var all := Set(swept, key, slot.value);
    var k := EvictFacts(all, config.max);
    SetKeepsPlaces(swept, key, slot.value);
    forall x, y | x in s && x.value.expiresAt > now && x.key != key && x !in all[k..] && y in all[k..]
      ensures |all[k..]| >= config.max && LastUse(uses + [key], x.key) < LastUse(uses + [key], y.key)
    {
      var i :| 0 <= i < |swept| && swept[i] == x;
      var j :| 0 <= j < |all[k..]| && all[k..][j] == y;
      NotInSuffix(all, i, k);
      LastUseAppend(uses, key, x.key);
      LastUseAppend(uses, key, y.key);
      if y.key != key {
        OlderFirst(swept, uses, i, k + j);
      }
    }
  }

  lemma NotInSuffix(s: Entries, i: nat, k: nat)
    requires i < |s| && k <= |s| && s[i] !in s[k..]
    ensures i < k
  {
    assert forall j :: k <= j < |s| ==> s[j] == s[k..][j - k];
  }

  lemma OlderFirst(s: Entries, uses: seq<string>, i: nat, j: nat)
    requires ByUse(s, uses) && i < j < |s|
    ensures LastUse(uses, s[i].key) < LastUse(uses, s[j].key)
  {
  }

  /** `set` leaves the other slots where they are. */
  lemma SetKeepsPlaces(s: Entries, key: string, value: Entry)
    requires UniqueKeys(s)
    ensures var t := Set(s, key, value);
            && |s| <= |t| <= |s| + 1
            && (forall i :: 0 <= i < |s| && s[i].key != key ==> t[i] == s[i])
            && (forall i :: 0 <= i < |t| && t[i].key != key ==> i < |s| && t[i] == s[i])
  {
    if i: nat :| i < |s| && s[i].key == key {
      SetPresent(s, key, value, i);
    } else {
      SetAbsent(s, key, value);
    }
  }

  /**
   * What a store evicts was used less recently than every entry that is left, and nothing is evicted that there
   * was room for.
   */
  lemma EvictsLeastRecentlyUsed(config: Config, clock: int, events: seq<Event>, e: Event)
    requires config.max >= 1 && CanRun(Initial(clock), config, events) && NeverMisplaces(Initial(clock), config, events)
    requires var s := Run(Initial(clock), config, events);
             CanStep(s, e) && Stores(config, e)
    ensures var s := Run(Initial(clock), config, events);
            var d := s.discoveries[e.discovery];
            var uses := UsesOf([], Initial(clock), config, events) + [d.key];
            var left := Step(s, config, e).entries;
            forall x, y ::
              x in s.entries && x.value.expiresAt > d.startedAt && x.key != d.key && x !in left && y in left ==>
                |left| >= config.max && LastUse(uses, x.key) < LastUse(uses, y.key)
  {
    var s := Run(Initial(clock), config, events);
    var d, uses := s.discoveries[e.discovery], UsesOf([], Initial(clock), config, events);
    NothingUsed([]);
    EntriesByUseIff([], Initial(clock), config, events);
    hide Run, CanRun, NeverMisplaces, UsesOf, Store, ByUse, LastUse;
    StoreEvictsOldest(s.entries, uses, config, d.key, e.outcome.value, d.startedAt);
  }

  /** So without explicit invalidation the entries always stand in the order of their last use. */
  lemma EntriesByUse(config: Config, clock: int, events: seq<Event>)
    requires config.max >= 1 && CanRun(Initial(clock), config, events) && Uninvalidated(events)
    ensures NeverMisplaces(Initial(clock), config, events)
    ensures ByUse(Run(Initial(clock), config, events).entries, UsesOf([], Initial(clock), config, events))
  {
    hide Run, CanRun, NeverMisplaces, UsesOf, ByUse;
    NothingUsed([]);
    UninvalidatedNeverMisplaces(Initial(clock), config, events);
    EntriesByUseIff([], Initial(clock), config, events);
  }

  lemma RunCons(s: State, config: Config, e: Event, events: seq<Event>)
    requires CanStep(s, e) && CanRun(Step(s, config, e), config, events)
    ensures CanRun(s, config, [e] + events)
    ensures Run(s, config, [e] + events) == Run(Step(s, config, e), config, events)
    ensures forall uses :: UsesOf(uses, s, config, [e] + events) ==
                           UsesOf(uses + Use(s, config, e), Step(s, config, e), config, events)
  {
    hide Step, CanStep, Use;
    assert ([e] + events)[1..] == events;
  }

  /** With one, a second discovery of a key can overwrite the result of the first in front of a later use. */
  lemma InvalidationMisplaces(a: string, b: string, x: seq<string>)
    requires a != "" && b != a && x != []
    ensures var config := Config(1, 2);
            var events := [Fetches(a, 0, true), Invalidated(Some(a), 0), Fetches(a, 0, true), Fetches(b, 0, true)] +
                          [Finishes(0, Some(x), 0), Finishes(2, Some(x), 0), Finishes(1, Some(x), 0)];
            && CanRun(Initial(0), config, events)
            && Run(Initial(0), config, events).entries == [Slot(a, Entry(x, 1)), Slot(b, Entry(x, 1))]
            && UsesOf([], Initial(0), config, events) == [a, b, a]
  {
    var config := Config(1, 2);
    var e0, e1, e2, e3 := Fetches(a, 0, true), Invalidated(Some(a), 0), Fetches(a, 0, true), Fetches(b, 0, true);
    var ends := [Finishes(0, Some(x), 0), Finishes(2, Some(x), 0), Finishes(1, Some(x), 0)];
    var d, d' := Discovery(a, 0, Running), Discovery(b, 0, Running);
    var s1, s2 := State([], map[a := 0], [d], 0), State([], map[], [d], 0);
    var s3, s4 := State([], map[a := 1], [d, d], 0), State([], map[a := 1, b := 2], [d, d, d'], 0);
    hide Step, CanStep, CanRun, Run, UsesOf, Use;
    FourStart(a, b, config);
    ThreeFinish(a, b, x);
    RunCons(s3, config, e3, ends);
    RunCons(s2, config, e2, [e3] + ends);
    RunCons(s1, config, e1, [e2] + ([e3] + ends));
    RunCons(Initial(0), config, e0, [e1] + ([e2] + ([e3] + ends)));
    assert [e0] + ([e1] + ([e2] + ([e3] + ends))) == [e0, e1, e2, e3] + ends;
    assert forall uses: seq<string> :: uses + [] == uses;
  }

  lemma FourStart(a: string, b: string, config: Config)
    requires a != "" && b != a
    ensures var e0, e1, e3 := Fetches(a, 0, true), Invalidated(Some(a), 0), Fetches(b, 0, true);
            var d, d' := Discovery(a, 0, Running), Discovery(b, 0, Running);
            var s1, s2 := State([], map[a := 0], [d], 0), State([], map[], [d], 0);
            var s3, s4 := State([], map[a := 1], [d, d], 0), State([], map[a := 1, b := 2], [d, d, d'], 0);
            && CanStep(Initial(0), e0) && Step(Initial(0), config, e0) == s1 && Use(Initial(0), config, e0) == []
            && CanStep(s1, e1) && Step(s1, config, e1) == s2 && Use(s1, config, e1) == []
            && CanStep(s2, e0) && Step(s2, config, e0) == s3 && Use(s2, config, e0) == []
            && CanStep(s3, e3) && Step(s3, config, e3) == s4 && Use(s3, config, e3) == []
  {
    var d, d' := Discovery(a, 0, Running), Discovery(b, 0, Running);
    assert [d] + [d] == [d, d] && [d, d] + [d'] == [d, d, d'] && map[a := 0] - {a} == map[];
    StartsCached(Initial(0), config, a);
    StartsCached(State([], map[], [d], 0), config, a);
    StartsCached(State([], map[a := 1], [d, d], 0), config, b);
  }

  lemma StartsCached(s: State, config: Config, key: string)
    requires s.entries == [] && s.clock == 0 && key !in s.inflight
    ensures var e := Fetches(key, 0, true);
            && CanStep(s, e) && Use(s, config, e) == []
            && Step(s, config, e) ==
               State([], s.inflight[key := |s.discoveries|], s.discoveries + [Discovery(key, 0, Running)], 0)
  {
  }

  lemma ThreeFinish(a: string, b: string, x: seq<string>)
    requires a != "" && b != a && x != []
    ensures var config := Config(1, 2);
            var d, d' := Discovery(a, 0, Running), Discovery(b, 0, Running);
            var s := State([], map[a := 1, b := 2], [d, d, d'], 0);
            var events := [Finishes(0, Some(x), 0), Finishes(2, Some(x), 0), Finishes(1, Some(x), 0)];
            && CanRun(s, config, events)
            && Run(s, config, events).entries == [Slot(a, Entry(x, 1)), Slot(b, Entry(x, 1))]
            && UsesOf([], s, config, events) == [a, b, a]
  {
    var config := Config(1, 2);
    var d, d' := Discovery(a, 0, Running), Discovery(b, 0, Running);
    var s := State([], map[a := 1, b := 2], [d, d, d'], 0);
    var e0, e1, e2 := Finishes(0, Some(x), 0), Finishes(2, Some(x), 0), Finishes(1, Some(x), 0);
    ThreeStores(a, b, x);
    StoringStep(s, config, e0);
    var s1 := Step(s, config, e0);
    StoringStep(s1, config, e1);
    var s2 := Step(s1, config, e1);
    StoringStep(s2, config, e2);
    hide Step, CanStep, Use, Store;
    RunCons(s2, config, e2, []);
    RunCons(s1, config, e1, [e2]);
    RunCons(s, config, e0, [e1, e2]);
    assert [e0] + [e1, e2] == [e0, e1, e2] && [e1] + [e2] == [e1, e2] && [e2] + [] == [e2];
    assert [] + [a] == [a] && [a] + [b] == [a, b] && [a, b] + [a] == [a, b, a];
  }

  lemma StoringStep(s: State, config: Config, e: Event)
    requires CanStep(s, e) && Stores(config, e)
    ensures var d := s.discoveries[e.discovery];
            && Step(s, config, e).entries == Store(s.entries, config, d.key, e.outcome.value, d.startedAt)
            && Step(s, config, e).discoveries == s.discoveries[e.discovery := d.(status := Done(e.outcome.value))]
            && Step(s, config, e).clock == e.now && Use(s, config, e) == [d.key]
  {
  }

  lemma ThreeStores(a: string, b: string, x: seq<string>)
    requires a != b && x != []
    ensures var config, value := Config(1, 2), Entry(x, 1);
            && Store([], config, a, x, 0) == [Slot(a, value)]
            && Store([Slot(a, value)], config, b, x, 0) == [Slot(a, value), Slot(b, value)]
            && Store([Slot(a, value), Slot(b, value)], config, a, x, 0) == [Slot(a, value), Slot(b, value)]
  {
    var one, two := [Slot(a, Entry(x, 1))], [Slot(a, Entry(x, 1)), Slot(b, Entry(x, 1))];
    assert one[1..] == [] && two[1..] == [two[1]] && two[1..][1..] == [];
    assert Sweep(one, 0) == one && Sweep(two, 0) == two;
    SetAbsent(one, b, Entry(x, 1));
    SetPresent(two, a, Entry(x, 1), 0);
  }

  // ---- Discoveries that fail before they suspend ----

  /** The flight of `key` is a discovery that has failed already, and nothing running can replace it. */
  predicate Poisoned(s: State, key: string, d: nat) {
    && key in s.inflight && s.inflight[key] == d
    && d < |s.discoveries| && s.discoveries[d].status.Failed?
    && (forall e :: 0 <= e < |s.discoveries| && s.discoveries[e].key == key ==> !s.discoveries[e].status.Running?)
    && !Has(s.entries, key)
  }

  /** A fetch of `key` that finds nothing, and whose discovery fails before the fetch suspends. */
  predicate FailsNow(s: State, e: Event, key: string) {
    && e.Fetches? && e.key == key && !e.suspends
    && Fetched(s.entries, s.inflight, key, e.now, |s.discoveries|).2.Miss?
  }

  predicate FailsEarly(s: State, config: Config, events: seq<Event>, key: string)
    requires CanRun(s, config, events)
    decreases |events|
  {
    events != [] &&
    (FailsNow(s, events[0], key) || FailsEarly(Step(s, config, events[0]), config, events[1..], key))
  }

  /** The flight of `key` is a discovery that has failed. */
  predicate FailedFlight(s: State, key: string) {
    key in s.inflight && s.inflight[key] < |s.discoveries| && s.discoveries[s.inflight[key]].status.Failed?
  }

  lemma StepPoisonsIff(s: State, config: Config, e: Event, key: string)
    requires Inv(s, config) && CanStep(s, e) && !e.Invalidated?
    ensures FailedFlight(Step(s, config, e), key) <==> FailedFlight(s, key) || FailsNow(s, e, key)
  {
    hide Store, Sweep, Get, Set, Delete, UniqueKeys, Has, Backed;
    assert key in s.inflight ==> IsLast(s.discoveries, key, s.inflight[key]);
    if FailedFlight(s, key) && e.Fetches? && e.key == key {
      InFlightNotCached(s, config, key);
      AbsentFromSweep(s.entries, key, e.now);
    }
    if e.Finishes? {
      FlightOf(s, e.discovery);
    }
  }

  /**
   * Without explicit invalidation, the flight of a key is a failed discovery exactly when some fetch of that
   * key found nothing and failed before it suspended; what happens to other keys does not matter.
   */
  lemma {:induction false} PoisonedIff(s: State, config: Config, events: seq<Event>, key: string)
    requires Inv(s, config) && CanRun(s, config, events) && config.max >= 1 && Uninvalidated(events)
    ensures FailedFlight(Run(s, config, events), key) <==> FailedFlight(s, key) || FailsEarly(s, config, events, key)
    decreases |events|
  {
    hide Inv, Step, CanStep, FailedFlight, FailsNow;
    if events != [] {
      StepPoisonsIff(s, config, events[0], key);
      StepKeepsInv(s, config, events[0]);
      PoisonedIff(Step(s, config, events[0]), config, events[1..], key);
    }
  }

  /** A failed flight is poisoned: nothing running, and no cached entry, can replace it. */
  lemma FailedFlightIsPoisoned(s: State, config: Config, key: string)
    requires Inv(s, config) && FailedFlight(s, key)
    ensures Poisoned(s, key, s.inflight[key])
  {
    InFlightNotCached(s, config, key);
  }

  /** A discovery that fails before it suspends leaves its rejected promise behind as the flight of its key. */
  lemma FailureBeforeSuspensionPoisons(s: State, config: Config, e: Event, key: string)
    requires Inv(s, config) && CanStep(s, e) && config.max >= 1 && FailsNow(s, e, key)
    ensures Poisoned(Step(s, config, e), key, |s.discoveries|)
  {
    hide Inv;
    FetchKeepsInv(s, config, e);
    FailedFlightIsPoisoned(Step(s, config, e), config, key);
  }

  /** A step on other keys leaves this key without a slot. */
  lemma StoreStaysAbsent(s: Entries, config: Config, key: string, other: string, capabilities: seq<string>, now: int)
    requires !Has(s, key) && key != other
    ensures !Has(Store(s, config, other, capabilities, now), key)
  {
    assert forall x :: x in s ==> x.key != key;
    hide Sweep, Set, Evict, Has;
    if config.ttl > 0 && capabilities != [] {
      var value := Entry(capabilities, now + config.ttl);
      var swept := Sweep(s, now);
      SweepMembers(s, now);
      Members(swept, other, value);
      var set' := Set(swept, other, value);
      var k := EvictFacts(set', config.max);
      forall x | x in set'[k..] ensures x.key != key {
        assert x in set';
      }
      AbsentIf(set'[k..], key);
    }
  }

  lemma FetchStaysAbsent(s: Entries, inflight: map<string, nat>, key: string, other: string, now: int, next: nat)
    requires !Has(s, key)
    ensures !Has(Fetched(s, inflight, other, now, next).0, key)
  {
    assert forall x :: x in s ==> x.key != key;
    SweepFacts(s, now);
    var swept := Sweep(s, now);
    AbsentIf(swept, key);
    GetFacts(swept, other);
    var cached := Get(swept, other);
    if cached.Some? {
      Members(swept, other, cached.value.value);
      Members(Delete(swept, other), other, cached.value.value);
      AbsentIf(Set(Delete(swept, other), other, cached.value.value), key);
    }
  }

  lemma StepKeepsPoison(s: State, config: Config, e: Event, key: string, d: nat)
    requires Poisoned(s, key, d) && CanStep(s, e) && !e.Invalidated?
    ensures Poisoned(Step(s, config, e), key, d)
  {
    hide Store, Sweep, Get, Delete, Set;
    match e {
      case Fetches(other, now, _) =>
        FetchStaysAbsent(s.entries, s.inflight, key, other, now, |s.discoveries|);
        AbsentFromSweep(s.entries, key, now);
      case Finishes(f, outcome, _) =>
        var discovery := s.discoveries[f];
        if outcome.Some? {
          StoreStaysAbsent(s.entries, config, key, discovery.key, outcome.value, discovery.startedAt);
        }
      case Sweeps(now) => AbsentFromSweep(s.entries, key, now);
    }
  }

  /** From then on, until an explicit invalidation, every fetch of that key joins the failed discovery. */
  lemma {:induction false} PoisonedForever(s: State, config: Config, events: seq<Event>, key: string, d: nat, now: int)
    requires Poisoned(s, key, d) && CanRun(s, config, events)
    requires forall i :: 0 <= i < |events| ==> !events[i].Invalidated?
    ensures var s' := Run(s, config, events);
            && Poisoned(s', key, d)
            && Fetched(s'.entries, s'.inflight, key, now, |s'.discoveries|).2 == Join(d)
    decreases |events|
  {
    hide Step, CanStep, Sweep, Get, Delete, Set;
    if events == [] {
      AbsentFromSweep(s.entries, key, now);
    } else {
      StepKeepsPoison(s, config, events[0], key, d);
      PoisonedForever(Step(s, config, events[0]), config, events[1..], key, d, now);
    }
  }

  /** After an explicit invalidation a second discovery of the same key can run beside the first. */
  lemma InvalidationAllowsSecondFlight(config: Config, key: string)
    requires key != ""
    ensures var events := [Fetches(key, 0, true), Invalidated(Some(key), 0), Fetches(key, 0, true)];
            && CanRun(Initial(0), config, events)
            && var s := Run(Initial(0), config, events);
               |s.discoveries| == 2 && s.discoveries[0] == s.discoveries[1] == Discovery(key, 0, Running)
  {
    var e0, e1 := Fetches(key, 0, true), Invalidated(Some(key), 0);
    var events := [e0, e1, e0];
    assert events[1..] == [e1, e0] && events[1..][1..] == [e0] && [e0][1..] == [];
    var s1 := Step(Initial(0), config, e0);
    assert s1 == State([], map[key := 0], [Discovery(key, 0, Running)], 0);
    var s2 := Step(s1, config, e1);
    assert s2 == State([], map[], [Discovery(key, 0, Running)], 0);
    var s3 := Step(s2, config, e0);
    assert s3.discoveries == [Discovery(key, 0, Running), Discovery(key, 0, Running)];
    assert CanRun(s3, config, []) && CanRun(s2, config, [e0]) && CanRun(s1, config, [e1, e0]);
    assert Run(s1, config, [e1, e0]) == Run(s2, config, [e0]) == s3;
  }
}
