/** The cache of verified tokens: time windows, expiry, size and eviction order. */
module TokenCache {
  import opened Common
  import opened OrderedMap

  // ---- Time-window checks on claims; times in seconds ----

  datatype Claim = Absent | Malformed | At(time: real)

  datatype Claims = Claims(exp: Claim, nbf: Claim, iat: Claim)

  datatype Source = Introspection | Jwt(clockSkew: real)

  /** The token's expiry when the claims pass at `now`. Introspection reads a malformed date as absent. */
  function TimeWindow(c: Claims, source: Source, now: real): Option<real> {
    match source
    case Introspection =>
      if !c.exp.At? || c.exp.time == 0.0 || c.exp.time <= now then None
      else if c.nbf.At? && c.nbf.time > now then None
      else Some(c.exp.time)
    case Jwt(skew) =>
      if c.exp.Malformed? || c.nbf.Malformed? || c.iat.Malformed? then None
      else if !c.exp.At? || c.exp.time == 0.0 || c.exp.time <= now - skew then None
      else if c.nbf.At? && c.nbf.time > now + skew then None
      else if c.iat.At? && c.iat.time > now + skew then None
      else Some(c.exp.time)
  }

  /** The tolerance for clocks that differ; introspection has none. */
  function SkewOf(source: Source): real {
    if source.Jwt? then source.clockSkew else 0.0
  }

  /**
   * The claims pass exactly in an interval of time: not before the not-before time and, for a JWT, the issue
   * time, less the skew; and before the expiry plus the skew, which must be there and not zero. No date of a JWT
   * may be malformed.
   */
  lemma PassesExactlyInWindow(c: Claims, source: Source, now: real, expiresAt: real)
    ensures TimeWindow(c, source, now) == Some(expiresAt) <==>
              && c.exp == At(expiresAt) && expiresAt != 0.0 && now < expiresAt + SkewOf(source)
              && (c.nbf.At? ==> c.nbf.time - SkewOf(source) <= now)
              && (source.Jwt? && c.iat.At? ==> c.iat.time - SkewOf(source) <= now)
              && (source.Jwt? ==> !c.nbf.Malformed? && !c.iat.Malformed?)
  {
    assert TimeWindow(c, source, now) == Some(expiresAt) ==> c.exp == At(expiresAt);
  }

  // ---- The cache: an insertion-ordered map ----

  datatype Config = Config(maxEntries: int, ttl: real, skew: real)

  /** What a verification established, and when it started. */
  datatype Info = Info(claims: Claims, source: Source, startedAt: real, expiresAt: real)

  datatype Entry = Entry(info: Info, expiresAtMs: real, lastAccessMs: real)

  type Slots = seq<Slot<Entry>>

  function Used(slot: Slot<Entry>, nowMs: real): Slot<Entry> {
    slot.(value := slot.value.(lastAccessMs := nowMs))
  }

  function Lookup(s: Slots, key: string, nowMs: real): (Slots, Option<Info>) {
    match Get(s, key)
    case None => (s, None)
    case Some(slot) =>
      if slot.value.expiresAtMs <= nowMs then (Delete(s, key), None)
      else (Delete(s, key) + [Used(slot, nowMs)], Some(slot.value.info))
  }

  function ExpiresAtMs(info: Info, config: Config): real {
    Min(info.expiresAt * 1000.0 - config.skew * 1000.0, info.startedAt * 1000.0 + config.ttl * 1000.0)
  }

  predicate Storable(info: Info, config: Config) {
    config.maxEntries > 0 && ExpiresAtMs(info, config) > info.startedAt * 1000.0
  }

  /** The entries a store keeps: everything under other keys, less the oldest when there is no room. */
  function Room(s: Slots, key: string, config: Config): Slots {
    var rest := Delete(s, key);
    if rest != [] && |rest| >= config.maxEntries then rest[1..] else rest
  }

  function Remember(s: Slots, key: string, info: Info, config: Config): Slots {
    if !Storable(info, config) then s
    else Room(s, key, config) + [Slot(key, Entry(info, ExpiresAtMs(info, config), info.startedAt * 1000.0))]
  }

  /** The module-level map and its two operations. */
  class Cache {
    var entries: Slots

    constructor ()
      ensures entries == []
    {
      entries := [];
    }

    method CachedAuthInfo(key: string, nowMs: real) returns (r: Option<Info>)
      modifies this
      ensures (entries, r) == Lookup(old(entries), key, nowMs)
    {
      var entry := Get(entries, key);
      if entry.None? {
        return None;
      }
      if entry.value.value.expiresAtMs <= nowMs {
        entries := Delete(entries, key);
        return None;
      }
      entries := Delete(entries, key);
      entries := entries + [Used(entry.value, nowMs)];
      r := Some(entry.value.value.info);
    }

    method RememberAuthInfo(key: string, info: Info, config: Config)
      modifies this
      ensures entries == Remember(old(entries), key, info, config)
    {
      if config.maxEntries <= 0 {
        return;
      }
      var nowMs := info.startedAt * 1000.0;
      var tokenExpiresAtMs := info.expiresAt * 1000.0 - config.skew * 1000.0;
      var ttlExpiresAtMs := nowMs + config.ttl * 1000.0;
      var expiresAtMs := if tokenExpiresAtMs <= ttlExpiresAtMs then tokenExpiresAtMs else ttlExpiresAtMs;
      if expiresAtMs <= nowMs {
        return;
      }
      entries := Delete(entries, key);
      if |entries| >= config.maxEntries && |entries| > 0 {
        entries := entries[1..];
      }
      entries := entries + [Slot(key, Entry(info, expiresAtMs, nowMs))];
    }
  }

  // ---- Runs: lookups, and verifications that finish some time after they started ----

  datatype Event =
    | Lookedup(key: string, now: real)
    | Verified(key: string, claims: Claims, source: Source, startedAt: real, now: real)

  /** `uses` lists the keys in the order they were hit or stored. */
  datatype State = State(slots: Slots, uses: seq<string>, clock: real)

  function Step(s: State, config: Config, e: Event): State {
    match e
    case Lookedup(key, now) =>
      var (slots, hit) := Lookup(s.slots, key, now * 1000.0);
      State(slots, if hit.Some? then s.uses + [key] else s.uses, now)
    case Verified(key, claims, source, startedAt, now) =>
      var window := TimeWindow(claims, source, startedAt);
      if window.None? then s.(clock := now)
      else
        var info := Info(claims, source, startedAt, window.value);
        State(Remember(s.slots, key, info, config),
              if Storable(info, config) then s.uses + [key] else s.uses, now)
  }

  function Run(s: State, config: Config, events: seq<Event>): State
    decreases |events|
  {
    if events == [] then s else Run(Step(s, config, events[0]), config, events[1..])
  }

  /** The clock never goes back, and no verification finishes before it started. */
  predicate Timely(clock: real, events: seq<Event>)
    decreases |events|
  {
    events == [] ||
    (events[0].now >= clock && (events[0].Verified? ==> events[0].startedAt <= events[0].now) &&
     Timely(events[0].now, events[1..]))
  }

  predicate Sound(entry: Entry, config: Config, clock: real) {
    && entry.info.startedAt <= clock
    && TimeWindow(entry.info.claims, entry.info.source, entry.info.startedAt) == Some(entry.info.expiresAt)
    && entry.expiresAtMs == ExpiresAtMs(entry.info, config)
  }

  predicate Inv(s: State, config: Config) {
    && (forall i :: 0 <= i < |s.slots| ==> Sound(s.slots[i].value, config, s.clock))
    && ByUse(s.slots, s.uses)
    && (s.slots != [] ==> |s.slots| <= config.maxEntries)
  }

  lemma StepKeepsInv(s: State, config: Config, e: Event)
    requires Inv(s, config) && e.now >= s.clock && (e.Verified? ==> e.startedAt <= e.now)
    ensures Inv(Step(s, config, e), config)
  {
    hide ByUse, LastUse, TimeWindow;
    GetFacts(s.slots, e.key);
    DeleteKeepsUse(s.slots, s.uses, e.key);
    var rest := Delete(s.slots, e.key);
    assert forall i :: 0 <= i < |rest| ==> rest[i] in s.slots;
    match e {
      case Lookedup(key, now) =>
        var slot := Get(s.slots, key);
        if slot.Some? && slot.value.value.expiresAtMs > now * 1000.0 {
          AppendKeepsUse(rest, s.uses, Used(slot.value, now * 1000.0));
        }
      case Verified(key, claims, source, startedAt, now) =>
        var window := TimeWindow(claims, source, startedAt);
        if window.Some? {
          var info := Info(claims, source, startedAt, window.value);
          if Storable(info, config) {
            RoomFacts(s.slots, s.uses, key, config);
            AppendKeepsUse(Room(s.slots, key, config), s.uses,
                           Slot(key, Entry(info, ExpiresAtMs(info, config), startedAt * 1000.0)));
          }
        }
    }
  }

  lemma RoomFacts(s: Slots, uses: seq<string>, key: string, config: Config)
    requires ByUse(s, uses) && config.maxEntries > 0 && |s| <= config.maxEntries
    ensures var room := Room(s, key, config);
            && ByUse(room, uses) && !Has(room, key) && |room| < config.maxEntries
            && forall i :: 0 <= i < |room| ==> room[i] in s
  {
    GetFacts(s, key);
    DeleteKeepsUse(s, uses, key);
    var rest, room := Delete(s, key), Room(s, key, config);
    if room != rest {
      assert forall i :: 0 <= i < |room| ==> room[i] == rest[i + 1];
    }
  }

  lemma {:induction false} RunKeepsInv(s: State, config: Config, events: seq<Event>)
    requires Inv(s, config) && Timely(s.clock, events)
    ensures Inv(Run(s, config, events), config)
    decreases |events|
  {
    if events != [] {
      StepKeepsInv(s, config, events[0]);
      RunKeepsInv(Step(s, config, events[0]), config, events[1..]);
    }
  }

  // ---- Which verification an entry comes from ----

  /** What a verification stores under `key`, if it stores anything there. */
  function Stored(config: Config, e: Event, key: string): Option<Info> {
    if e.Lookedup? || e.key != key then None
    else
      var window := TimeWindow(e.claims, e.source, e.startedAt);
      if window.None? then None
      else
        var info := Info(e.claims, e.source, e.startedAt, window.value);
        if Storable(info, config) then Some(info) else None
  }

  /** The last of them in a run; `earlier` is what was stored before it. */
  function LastStored(earlier: Option<Info>, config: Config, events: seq<Event>, key: string): Option<Info>
    decreases |events|
  {
    if events == [] then earlier
    else
      var stored := Stored(config, events[0], key);
      LastStored(if stored.Some? then stored else earlier, config, events[1..], key)
  }

  predicate HoldsOnly(s: Slots, key: string, info: Option<Info>) {
    forall i :: 0 <= i < |s| && s[i].key == key ==> info == Some(s[i].value.info)
  }

  lemma HoldsOnlyMembers(s: Slots, t: Slots, key: string, info: Option<Info>)
    requires HoldsOnly(s, key, info) && forall x :: x in t ==> x in s
    ensures HoldsOnly(t, key, info)
  {
    forall i | 0 <= i < |t| && t[i].key == key ensures info == Some(t[i].value.info) {
      assert t[i] in s;
    }
  }

  lemma RoomMembers(s: Slots, key: string, config: Config)
    ensures forall x :: x in Room(s, key, config) ==> x in Delete(s, key)
  {
  }

  lemma StepHoldsLast(s: State, config: Config, e: Event, key: string, earlier: Option<Info>)
    requires Inv(s, config) && HoldsOnly(s.slots, key, earlier)
    ensures var stored := Stored(config, e, key);
            HoldsOnly(Step(s, config, e).slots, key, if stored.Some? then stored else earlier)
  {
    hide TimeWindow, ByUse, Room, Delete, Get, Sound;
    GetFacts(s.slots, e.key);
    DeleteKeepsUse(s.slots, s.uses, e.key);
    RoomMembers(s.slots, e.key, config);
    HoldsOnlyMembers(s.slots, Delete(s.slots, e.key), key, earlier);
    HoldsOnlyMembers(s.slots, Room(s.slots, e.key, config), key, earlier);
    if e.key == key {
      NotInRoom(s.slots, key, config);
    }
  }

  lemma NotInRoom(s: Slots, key: string, config: Config)
    requires !Has(Delete(s, key), key)
    ensures forall i :: 0 <= i < |Room(s, key, config)| ==> Room(s, key, config)[i].key != key
  {
  }

  lemma StepClock(s: State, config: Config, e: Event)
    ensures Step(s, config, e).clock == e.now
  {
  }

  lemma {:induction false} RunHoldsLast(
      s: State, config: Config, events: seq<Event>, key: string, earlier: Option<Info>)
    requires Inv(s, config) && Timely(s.clock, events) && HoldsOnly(s.slots, key, earlier)
    ensures HoldsOnly(Run(s, config, events).slots, key, LastStored(earlier, config, events, key))
    decreases |events|
  {
    hide Inv, Step, HoldsOnly, Stored;
    if events != [] {
      var stored := Stored(config, events[0], key);
      StepHoldsLast(s, config, events[0], key, earlier);
      StepClock(s, config, events[0]);
      StepKeepsInv(s, config, events[0]);
      RunHoldsLast(Step(s, config, events[0]), config, events[1..], key, if stored.Some? then stored else earlier);
    }
  }

  /** It is what a verification of that key in the run established, or nothing of the run was stored. */
  lemma {:induction false} LastStoredFrom(
      config: Config, events: seq<Event>, key: string, earlier: Option<Info>)
    ensures var last := LastStored(earlier, config, events, key);
            last == earlier || exists i :: 0 <= i < |events| && Stored(config, events[i], key) == last
    decreases |events|
  {
    if events != [] {
      var stored := Stored(config, events[0], key);
      var next := if stored.Some? then stored else earlier;
      LastStoredFrom(config, events[1..], key, next);
      var last := LastStored(earlier, config, events, key);
      if j :| 0 <= j < |events[1..]| && Stored(config, events[1..][j], key) == last {
        assert Stored(config, events[j + 1], key) == last;
      }
    }
  }

  // ---- Main results ----

  function Start(clock: real): State {
    State([], [], clock)
  }

  /**
   * A hit agrees with a fresh check: whatever happened before, what is returned for a key at `now` is what the
   * last verification of that key that could be stored established; its claims would pass the time-window
   * checks at `now` with the same expiry, so `now` is not before the token's start or issue time but for the
   * skew; and `now` is before the token's expiry less the cache skew and within the TTL of that verification.
   */
  lemma HitAgreesWithVerification(config: Config, clock: real, events: seq<Event>, key: string, now: real)
    requires Timely(clock, events) && now >= Run(Start(clock), config, events).clock
    requires config.skew >= 0.0
    ensures var hit := Lookup(Run(Start(clock), config, events).slots, key, now * 1000.0).1;
            hit.Some? ==>
              var info := hit.value;
              && LastStored(None, config, events, key) == Some(info)
              && (exists i :: 0 <= i < |events| && Stored(config, events[i], key) == Some(info))
              && (info.source.Jwt? ==> info.source.clockSkew >= 0.0 ==>
                    TimeWindow(info.claims, info.source, now) == Some(info.expiresAt))
              && (info.source.Introspection? ==> TimeWindow(info.claims, info.source, now) == Some(info.expiresAt))
              && info.claims.exp == At(info.expiresAt)
              && (info.claims.nbf.At? ==> info.claims.nbf.time - SkewOf(info.source) <= now)
              && (info.source.Jwt? && info.claims.iat.At? ==> info.claims.iat.time - SkewOf(info.source) <= now)
              && now < info.expiresAt - config.skew && now < info.startedAt + config.ttl
  {
    hide Run, Inv, TimeWindow, Delete, Storable;
    var s := Run(Start(clock), config, events);
    RunKeepsFromStart(config, clock, events);
    RunHoldsLast(Start(clock), config, events, key, None);
    HitHasFacts(s, config, key, now);
    if Lookup(s.slots, key, now * 1000.0).1.Some? {
      LastStoredFrom(config, events, key, None);
    }
  }

  lemma RunKeepsFromStart(config: Config, clock: real, events: seq<Event>)
    requires Timely(clock, events)
    ensures Inv(Start(clock), config) && Inv(Run(Start(clock), config, events), config)
  {
    RunKeepsInv(Start(clock), config, events);
  }

  lemma HitHasFacts(s: State, config: Config, key: string, now: real)
    requires Inv(s, config) && now >= s.clock && config.skew >= 0.0
    ensures var hit := Lookup(s.slots, key, now * 1000.0).1;
            hit.Some? ==>
              var info := hit.value;
              && (exists i :: 0 <= i < |s.slots| && s.slots[i].key == key && s.slots[i].value.info == info)
              && (info.source.Jwt? ==> info.source.clockSkew >= 0.0 ==>
                    TimeWindow(info.claims, info.source, now) == Some(info.expiresAt))
              && (info.source.Introspection? ==> TimeWindow(info.claims, info.source, now) == Some(info.expiresAt))
              && info.claims.exp == At(info.expiresAt)
              && (info.claims.nbf.At? ==> info.claims.nbf.time - SkewOf(info.source) <= now)
              && (info.source.Jwt? && info.claims.iat.At? ==> info.claims.iat.time - SkewOf(info.source) <= now)
              && now < info.expiresAt - config.skew && now < info.startedAt + config.ttl
  {
    GetFacts(s.slots, key);
    var hit := Lookup(s.slots, key, now * 1000.0).1;
    if hit.Some? {
      var info := hit.value;
      PassesExactlyInWindow(info.claims, info.source, info.startedAt, info.expiresAt);
    }
  }

  /** The cache never holds more entries than the configured maximum. */
  lemma SizeWithinMaximum(config: Config, clock: real, events: seq<Event>)
    requires Timely(clock, events) && config.maxEntries >= 0
    ensures |Run(Start(clock), config, events).slots| <= config.maxEntries
  {
    RunKeepsInv(Start(clock), config, events);
  }

  /** An entry that a store evicts was used less recently than every entry that stays. */
  lemma EvictsLeastRecentlyUsed(config: Config, clock: real, events: seq<Event>, key: string,
                                x: Slot<Entry>, y: Slot<Entry>)
    requires Timely(clock, events)
    requires var s := Run(Start(clock), config, events);
             x in s.slots && x.key != key && x !in Room(s.slots, key, config) && y in Room(s.slots, key, config)
    ensures var uses := Run(Start(clock), config, events).uses;
            LastUse(uses, x.key) < LastUse(uses, y.key)
  {
    var s := Run(Start(clock), config, events);
    RunKeepsInv(Start(clock), config, events);
    var rest := Delete(s.slots, key);
    DeleteKeepsUse(s.slots, s.uses, key);
    KeptByDelete(s.slots, key, x);
    assert x in rest && x == rest[0];
    var j :| 0 <= j < |rest[1..]| && rest[1..][j] == y;
    assert y == rest[j + 1];
  }

  lemma {:induction false} KeptByDelete(s: Slots, key: string, x: Slot<Entry>)
    requires x in s && x.key != key
    ensures x in Delete(s, key)
  {
    if s[0].key != key && s[0] != x {
      KeptByDelete(s[1..], key, x);
    }
  }

  // ---- What is there, exactly ----

  /** What the cache has under `key`, expired or not. */
  function Held(s: State, key: string): Option<Info> {
    match Get(s.slots, key)
    case None => None
    case Some(slot) => Some(slot.value.info)
  }

  predicate Live(info: Info, config: Config, now: real) {
    now < info.expiresAt - config.skew && now < info.startedAt + config.ttl
  }

  /** A lookup hits exactly when the cache has the key and neither the token nor the entry has expired. */
  lemma HitsExactlyWhileLive(s: State, config: Config, key: string, now: real)
    requires Inv(s, config)
    ensures var held := Held(s, key);
            Lookup(s.slots, key, now * 1000.0).1 == if held.Some? && Live(held.value, config, now) then held else None
  {
    hide ByUse;
    GetFacts(s.slots, key);
  }

  /** A verification is stored exactly when it passes its checks, there is room at all, and it would be live. */
  lemma StoredIff(config: Config, e: Event, key: string, info: Info)
    ensures Stored(config, e, key) == Some(info) <==>
              && e.Verified? && e.key == key && config.maxEntries > 0
              && info == Info(e.claims, e.source, e.startedAt, info.expiresAt)
              && TimeWindow(e.claims, e.source, e.startedAt) == Some(info.expiresAt)
              && Live(info, config, e.startedAt)
  {
    hide TimeWindow;
  }

  /** The store of another key has no room and finds `key` used least recently. */
  predicate Evicts(s: State, config: Config, e: Event, key: string) {
    && e.key != key && Stored(config, e, e.key).Some? && Has(s.slots, key)
    && |Delete(s.slots, e.key)| >= config.maxEntries
    && forall i :: 0 <= i < |s.slots| && s.slots[i].key != e.key ==>
         LastUse(s.uses, key) <= LastUse(s.uses, s.slots[i].key)
  }

  lemma RoomHolds(s: State, config: Config, e: Event, key: string)
    requires Inv(s, config) && e.key != key && Stored(config, e, e.key).Some?
    ensures Get(Room(s.slots, e.key, config), key) == if Evicts(s, config, e, key) then None else Get(s.slots, key)
  {
    hide Stored, TimeWindow, Delete, Sound, LastUse;
    var rest := Delete(s.slots, e.key);
    DeleteKeepsUse(s.slots, s.uses, e.key);
    GetOther(s.slots, e.key, key);
    GetFacts(s.slots, key);
    GetFacts(rest, key);
    if rest != [] && |rest| >= config.maxEntries {
      if rest[0].key == key {
        NotBehindFirst(rest, s.uses);
        GetFacts(rest[1..], key);
        forall i | 0 <= i < |s.slots| && s.slots[i].key != e.key
          ensures LastUse(s.uses, key) <= LastUse(s.uses, s.slots[i].key)
        {
          KeptByDelete(s.slots, e.key, s.slots[i]);
          var j :| 0 <= j < |rest| && rest[j] == s.slots[i];
        }
      } else {
        assert rest[0] in s.slots;
        var i :| 0 <= i < |s.slots| && s.slots[i] == rest[0];
        assert Has(rest, key) ==> LastUse(s.uses, rest[0].key) < LastUse(s.uses, key);
      }
    }
  }

  lemma NotBehindFirst(s: Slots, uses: seq<string>)
    requires ByUse(s, uses) && s != []
    ensures !Has(s[1..], s[0].key)
  {
  }

  /** What an event leaves under a key: the only ways out are to expire before a lookup and to be evicted. */
  lemma StepHolds(s: State, config: Config, e: Event, key: string)
    requires Inv(s, config) && e.now >= s.clock && (e.Verified? ==> e.startedAt <= e.now)
    ensures Held(Step(s, config, e), key) ==
            if Stored(config, e, key).Some? then Stored(config, e, key)
            else if Evicts(s, config, e, key) then None
            else if e.Lookedup? && e.key == key && Held(s, key).Some? && !Live(Held(s, key).value, config, e.now)
            then None
            else Held(s, key)
  {
    hide TimeWindow, Delete, Get, ByUse, Sound, LastUse;
    DeleteKeepsUse(s.slots, s.uses, e.key);
    GetFacts(Delete(s.slots, e.key), e.key);
    if key != e.key {
      GetOther(s.slots, e.key, key);
    }
    match e {
      case Lookedup(_, now) =>
        HitsExactlyWhileLive(s, config, e.key, now);
        var slot := Get(s.slots, e.key);
        if slot.Some? {
          GetFacts(s.slots, e.key);
          GetAppend(Delete(s.slots, e.key), Used(slot.value, now * 1000.0), key);
        }
      case Verified(_, _, _, _, _) =>
        var info := Stored(config, e, e.key);
        if info.Some? {
          if e.key != key {
            RoomHolds(s, config, e, key);
          }
          NotInRoom(s.slots, e.key, config);
          var entry := Entry(info.value, ExpiresAtMs(info.value, config), info.value.startedAt * 1000.0);
          GetAppend(Room(s.slots, e.key, config), Slot(e.key, entry), key);
        }
    }
  }

  // ---- The stored `lastAccessMs` and the order of use ----

  predicate StampsInOrder(s: Slots) {
    forall i, j :: 0 <= i < j < |s| ==> s[i].value.lastAccessMs <= s[j].value.lastAccessMs
  }

  predicate StampsPast(s: Slots, clock: real) {
    forall i :: 0 <= i < |s| ==> s[i].value.lastAccessMs <= clock * 1000.0
  }

  /** A verification that started before the stamp of an entry that stays. */
  predicate Overtaken(s: State, config: Config, e: Event) {
    && e.Verified? && Stored(config, e, e.key).Some?
    && exists x :: x in Room(s.slots, e.key, config) && x.value.lastAccessMs > e.startedAt * 1000.0
  }

  lemma {:induction false} DeleteKeepsStamps(s: Slots, key: string)
    requires StampsInOrder(s)
    ensures StampsInOrder(Delete(s, key)) && forall x :: x in Delete(s, key) ==> x in s
    decreases |s|
  {
    if s != [] {
      assert forall i :: 0 <= i < |s[1..]| ==> s[1..][i] == s[i + 1];
      if s[0].key != key {
        DeleteKeepsStamps(s[1..], key);
        var rest := Delete(s[1..], key);
        forall j | 0 <= j < |rest| ensures s[0].value.lastAccessMs <= rest[j].value.lastAccessMs {
          assert rest[j] in s[1..];
        }
      }
    }
  }

  lemma AppendStampsIff(s: Slots, slot: Slot<Entry>)
    requires StampsInOrder(s)
    ensures StampsInOrder(s + [slot]) <==> forall x :: x in s ==> x.value.lastAccessMs <= slot.value.lastAccessMs
  {
    var t := s + [slot];
    assert forall i :: 0 <= i < |s| ==> t[i] == s[i] && s[i] in s;
    assert t[|s|] == slot;
  }

  lemma RoomKeepsStamps(s: Slots, key: string, config: Config)
    requires StampsInOrder(s)
    ensures StampsInOrder(Room(s, key, config)) && forall x :: x in Room(s, key, config) ==> x in s
  {
    DeleteKeepsStamps(s, key);
  }

  lemma PastMembers(s: Slots, t: Slots, clock: real)
    requires StampsPast(s, clock) && forall x :: x in t ==> x in s
    ensures StampsPast(t, clock)
  {
    forall i | 0 <= i < |t| ensures t[i].value.lastAccessMs <= clock * 1000.0 {
      assert t[i] in s;
    }
  }

  /** One event keeps the stamps in the order of use exactly when it does not store a verification so overtaken. */
  lemma StepKeepsStampsIff(s: State, config: Config, e: Event)
    requires StampsInOrder(s.slots) && StampsPast(s.slots, s.clock)
    requires e.now >= s.clock && (e.Verified? ==> e.startedAt <= e.now)
    ensures StampsInOrder(Step(s, config, e).slots) <==> !Overtaken(s, config, e)
    ensures StampsPast(Step(s, config, e).slots, e.now)
  {
    hide TimeWindow, Delete, Get, Room, StampsInOrder;
    var kept := if e.Lookedup? then Delete(s.slots, e.key) else Room(s.slots, e.key, config);
    DeleteKeepsStamps(s.slots, e.key);
    RoomKeepsStamps(s.slots, e.key, config);
    assert StampsPast(s.slots, e.now);
    PastMembers(s.slots, kept, e.now);
    match e {
      case Lookedup(key, now) =>
        var slot := Get(s.slots, key);
        if slot.Some? {
          AppendStampsIff(kept, Used(slot.value, now * 1000.0));
        }
      case Verified(key, _, _, startedAt, _) =>
        var info := Stored(config, e, key);
        if info.Some? {
          AppendStampsIff(kept, Slot(key, Entry(info.value, ExpiresAtMs(info.value, config), startedAt * 1000.0)));
        }
    }
  }

  predicate NeverOvertaken(s: State, config: Config, events: seq<Event>)
    decreases |events|
  {
    events == [] ||
    (!Overtaken(s, config, events[0]) && NeverOvertaken(Step(s, config, events[0]), config, events[1..]))
  }

  predicate StampsAlwaysInOrder(s: State, config: Config, events: seq<Event>)
    decreases |events|
  {
    StampsInOrder(s.slots) && (events == [] || StampsAlwaysInOrder(Step(s, config, events[0]), config, events[1..]))
  }

  /**
   * The order of eviction is that of use. It is also that of the stored `lastAccessMs` throughout a run exactly
   * when each verification that is stored started no earlier than the stamps of the entries that stay.
   */
  lemma {:induction false} StampsFollowUseIff(s: State, config: Config, events: seq<Event>)
    requires StampsInOrder(s.slots) && StampsPast(s.slots, s.clock) && Timely(s.clock, events)
    ensures StampsAlwaysInOrder(s, config, events) <==> NeverOvertaken(s, config, events)
    decreases |events|
  {
    hide Step, StampsInOrder, StampsPast, Overtaken;
    if events != [] {
      StepKeepsStampsIff(s, config, events[0]);
      StepClock(s, config, events[0]);
      if !Overtaken(s, config, events[0]) {
        StampsFollowUseIff(Step(s, config, events[0]), config, events[1..]);
      }
    }
  }

  /** They part when a verification that started early finishes late, and eviction then ignores the stamps. */
  lemma EvictionIgnoresStamps()
    ensures var config := Config(2, 100.0, 0.0);
            var late := Info(Claims(At(900.0), Absent, Absent), Introspection, 10.0, 900.0);
            var early := late.(startedAt := 5.0);
            var s := Remember(Remember([], "a", late, config), "b", early, config);
            && |s| == 2 && s[1].value.lastAccessMs < s[0].value.lastAccessMs
            && Room(s, "c", config) == [s[1]]
  {
    var config := Config(2, 100.0, 0.0);
    var late := Info(Claims(At(900.0), Absent, Absent), Introspection, 10.0, 900.0);
    var early := late.(startedAt := 5.0);
    var first := Remember([], "a", late, config);
    assert first == [Slot("a", Entry(late, ExpiresAtMs(late, config), 10000.0))];
    assert Delete(first, "b") == first by { assert first[1..] == []; }
    var s := Remember(first, "b", early, config);
    assert s == first + [Slot("b", Entry(early, ExpiresAtMs(early, config), 5000.0))];
    assert Delete(s, "c") == s by {
      assert s[1..] == [s[1]] && s[1..][1..] == [];
      assert Delete([s[1]], "c") == [s[1]];
    }
  }
}
