/** The two-level in-flight limiter: one total bound and one bound for each key. */
module InFlight {

  datatype Limits = Limits(maxTotal: nat, maxPerKey: nat)

  datatype Verdict = Allowed | Refused(status: nat)

  /** What the limiter stores. A key without a permit is absent from `byKey`. */
  datatype Permits = Permits(active: nat, byKey: map<string, nat>)

  const NO_PERMITS := Permits(0, map[])

  function Held(p: Permits, key: string): nat {
    if key in p.byKey then p.byKey[key] else 0
  }

  /** Give one permit of `key` back to the per-key table. */
  function DropOne(byKey: map<string, nat>, key: string): map<string, nat> {
    var current := if key in byKey then byKey[key] else 0;
    if current <= 1 then byKey - {key} else byKey[key := current - 1]
  }

  function Acquire(p: Permits, limits: Limits, key: string): (Permits, Verdict) {
    if p.active >= limits.maxTotal then (p, Refused(503))
    else if Held(p, key) >= limits.maxPerKey then (p, Refused(429))
    else (Permits(p.active + 1, p.byKey[key := Held(p, key) + 1]), Allowed)
  }

  function Rekey(p: Permits, limits: Limits, from: string, to: string): (Permits, Verdict) {
    if from == to then (p, Allowed)
    else if Held(p, to) >= limits.maxPerKey then (p, Refused(429))
    else (Permits(p.active, DropOne(p.byKey, from)[to := Held(p, to) + 1]), Allowed)
  }

  function Release(p: Permits, key: string): Permits {
    Permits(if p.active == 0 then 0 else p.active - 1, DropOne(p.byKey, key))
  }

  /** The holders of a permit under `key`; `holders` maps whoever holds a permit to the key it is held under. */
  function Under(holders: map<nat, string>, key: string): set<nat> {
    set id | id in holders && holders[id] == key
  }

  ghost predicate CountsKey(p: Permits, holders: map<nat, string>, key: string) {
    Held(p, key) == |Under(holders, key)| && (key in p.byKey ==> p.byKey[key] >= 1)
  }

  /** The limiter counts exactly the permits that are out, in total and under every key. */
  ghost predicate Balanced(p: Permits, holders: map<nat, string>) {
    p.active == |holders| && forall key :: CountsKey(p, holders, key)
  }

  ghost predicate WithinLimits(p: Permits, limits: Limits) {
    && p.active <= limits.maxTotal
    && (forall key :: Held(p, key) <= limits.maxPerKey)
  }

  /** After a drop the key holds one permit fewer (none stays none) and no other key changes. */
  lemma HeldAfterDrop(p: Permits, key: string, k: string)
    ensures Held(Permits(p.active, DropOne(p.byKey, key)), k) ==
            if k == key && Held(p, key) > 0 then Held(p, key) - 1 else Held(p, k)
  {
  }

  /** No operation of the limiter can push the total or any key over its bound. */
  lemma BoundsNeverExceeded(p: Permits, limits: Limits, from: string, to: string)
    requires WithinLimits(p, limits)
    ensures WithinLimits(Acquire(p, limits, to).0, limits)
    ensures WithinLimits(Rekey(p, limits, from, to).0, limits)
    ensures WithinLimits(Release(p, from), limits)
  {
    var a, m, r := Acquire(p, limits, to).0, Rekey(p, limits, from, to).0, Release(p, from);
    forall k
      ensures Held(a, k) <= limits.maxPerKey && Held(m, k) <= limits.maxPerKey && Held(r, k) <= limits.maxPerKey
    {
      assert Held(p, k) <= limits.maxPerKey;
      HeldAfterDrop(p, from, k);
    }
  }

  /** Who holds `k` once `id` holds `key`: `id` joins its new key and leaves the one it held. */
  lemma UnderAfterSet(holders: map<nat, string>, id: nat, key: string, k: string)
    ensures |Under(holders[id := key], k)| ==
            |Under(holders, k)| + (if k == key then 1 else 0) - (if id in holders && holders[id] == k then 1 else 0)
  {
    var before, now := Under(holders, k), Under(holders[id := key], k);
    assert forall x :: x != id ==> (x in now <==> x in before);
    assert now - {id} == before - {id};
    assert |now| == |now - {id}| + if id in now then 1 else 0;
    assert |before| == |before - {id}| + if id in before then 1 else 0;
  }

  /** An acquisition adds one holder under its key, and refuses exactly at a bound. */
  lemma AcquireKeepsBalance(p: Permits, limits: Limits, key: string, holders: map<nat, string>, id: nat)
    requires Balanced(p, holders) && id !in holders
    ensures var (p', v) := Acquire(p, limits, key);
            && (v.Allowed? <==> |holders| < limits.maxTotal && |Under(holders, key)| < limits.maxPerKey)
            && (v.Allowed? ==> Balanced(p', holders[id := key]))
            && (v.Refused? ==> p' == p && v.status == if |holders| >= limits.maxTotal then 503 else 429)
  {
    assert CountsKey(p, holders, key);
    var (p', v) := Acquire(p, limits, key);
    if v.Allowed? {
      assert holders[id := key].Keys == holders.Keys + {id};
      assert |holders[id := key].Keys| == |holders.Keys| + 1;
      var next := holders[id := key];
      forall k ensures CountsKey(p', next, k) {
        assert CountsKey(p, holders, k);
        UnderAfterSet(holders, id, key, k);
      }
    }
  }

  /** A rekey moves one holder from its key to another and leaves the total alone. */
  lemma RekeyKeepsBalance(p: Permits, limits: Limits, to: string, holders: map<nat, string>, id: nat)
    requires Balanced(p, holders) && id in holders
    ensures var (p', v) := Rekey(p, limits, holders[id], to);
            && (v.Allowed? <==> holders[id] == to || |Under(holders, to)| < limits.maxPerKey)
            && (v.Allowed? ==> Balanced(p', holders[id := to]))
            && (v.Refused? ==> p' == p && v.status == 429)
  {
    assert CountsKey(p, holders, to);
    var from := holders[id];
    var (p', v) := Rekey(p, limits, from, to);
    if from == to {
      assert holders[id := to] == holders;
    } else if v.Allowed? {
      assert holders[id := to].Keys == holders.Keys;
      assert id in Under(holders, from);
      assert CountsKey(p, holders, from);
      var next := holders[id := to];
      forall k ensures CountsKey(p', next, k) {
        assert CountsKey(p, holders, k);
        UnderAfterSet(holders, id, to, k);
      }
    }
  }

  /** Giving a permit back under the key it is held under removes exactly that holder. */
  lemma ReleaseKeepsBalance(p: Permits, holders: map<nat, string>, id: nat)
    requires Balanced(p, holders) && id in holders
    ensures Balanced(Release(p, holders[id]), holders - {id})
  {
    var key := holders[id];
    var p', rest := Release(p, key), holders - {id};
    assert rest.Keys == holders.Keys - {id};
    assert |rest.Keys| == |holders.Keys| - 1;
    assert id in Under(holders, key);
    forall k ensures CountsKey(p', rest, k) {
      assert CountsKey(p, holders, k);
      assert Under(rest, k) == Under(holders, k) - {id};
    }
  }

  /** A limiter's account: it counts its holders and keeps to its bounds. */
  ghost predicate Accounts(p: Permits, limits: Limits, holders: map<nat, string>) {
    Balanced(p, holders) && WithinLimits(p, limits)
  }

  /** The account is kept by each operation, with the holder it adds, moves or removes. */
  lemma AcquireAccounts(p: Permits, limits: Limits, key: string, holders: map<nat, string>, id: nat)
    requires Accounts(p, limits, holders) && id !in holders
    ensures var (p', v) := Acquire(p, limits, key);
            if v.Allowed? then Accounts(p', limits, holders[id := key]) else p' == p
  {
    hide Acquire, Balanced, WithinLimits;
    AcquireKeepsBalance(p, limits, key, holders, id);
    BoundsNeverExceeded(p, limits, key, key);
  }

  lemma RekeyAccounts(p: Permits, limits: Limits, to: string, holders: map<nat, string>, id: nat)
    requires Accounts(p, limits, holders) && id in holders
    ensures var (p', v) := Rekey(p, limits, holders[id], to);
            if v.Allowed? then Accounts(p', limits, holders[id := to]) else p' == p
  {
    hide Rekey, Balanced, WithinLimits;
    RekeyKeepsBalance(p, limits, to, holders, id);
    BoundsNeverExceeded(p, limits, holders[id], to);
  }

  lemma ReleaseAccounts(p: Permits, limits: Limits, holders: map<nat, string>, id: nat)
    requires Accounts(p, limits, holders) && id in holders
    ensures Accounts(Release(p, holders[id]), limits, holders - {id})
  {
    hide Release, Balanced, WithinLimits;
    ReleaseKeepsBalance(p, holders, id);
    BoundsNeverExceeded(p, limits, holders[id], holders[id]);
  }

  /** The limiter object with the two fields its closure keeps. */
  class InFlightLimiter {
    const limits: Limits
    var active: nat
    var byKey: map<string, nat>

    function View(): Permits
      reads this
    {
      Permits(active, byKey)
    }

    constructor (limits: Limits)
      ensures this.limits == limits && View() == NO_PERMITS
    {
      this.limits := limits;
      active, byKey := 0, map[];
    }

    method Take(key: string) returns (verdict: Verdict)
      modifies this
      ensures (View(), verdict) == Acquire(old(View()), limits, key)
    {
      if active >= limits.maxTotal {
        return Refused(503);
      }
      var current := if key in byKey then byKey[key] else 0;
      if current >= limits.maxPerKey {
        return Refused(429);
      }
      active := active + 1;
      byKey := byKey[key := current + 1];
      verdict := Allowed;
    }

    method Move(from: string, to: string) returns (verdict: Verdict)
      modifies this
      ensures (View(), verdict) == Rekey(old(View()), limits, from, to)
    {
      if from == to {
        return Allowed;
      }
      var nextCurrent := if to in byKey then byKey[to] else 0;
      if nextCurrent >= limits.maxPerKey {
        return Refused(429);
      }
      var fromCurrent := if from in byKey then byKey[from] else 0;
      if fromCurrent <= 1 {
        byKey := byKey - {from};
      } else {
        byKey := byKey[from := fromCurrent - 1];
      }
      byKey := byKey[to := nextCurrent + 1];
      verdict := Allowed;
    }

    method GiveBack(key: string)
      modifies this
      ensures View() == Release(old(View()), key)
    {
      var current := if key in byKey then byKey[key] else 0;
      if current <= 1 {
        byKey := byKey - {key};
      } else {
        byKey := byKey[key := current - 1];
      }
      active := if active == 0 then 0 else active - 1;
    }
  }
}
