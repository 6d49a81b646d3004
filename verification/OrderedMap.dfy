/** A JavaScript `Map` with string keys: its slots in insertion order. */
module OrderedMap {
  import opened Common

  datatype Slot<V> = Slot(key: string, value: V)

  predicate Has<V>(s: seq<Slot<V>>, key: string) {
    exists i :: 0 <= i < |s| && s[i].key == key
  }

  predicate UniqueKeys<V>(s: seq<Slot<V>>) {
    forall i, j :: 0 <= i < j < |s| ==> s[i].key != s[j].key
  }

  function Get<V>(s: seq<Slot<V>>, key: string): Option<Slot<V>> {
    if s == [] then None else if s[0].key == key then Some(s[0]) else Get(s[1..], key)
  }

  function Delete<V>(s: seq<Slot<V>>, key: string): seq<Slot<V>> {
    if s == [] then [] else if s[0].key == key then s[1..] else [s[0]] + Delete(s[1..], key)
  }

  /** `set` on a present key keeps its place. */
  function Set<V>(s: seq<Slot<V>>, key: string, value: V): seq<Slot<V>> {
    if s == [] then [Slot(key, value)]
    else if s[0].key == key then [Slot(key, value)] + s[1..]
    else [s[0]] + Set(s[1..], key, value)
  }

  lemma {:induction false} GetFacts<V>(s: seq<Slot<V>>, key: string)
    ensures Get(s, key).Some? ==> Get(s, key).value in s && Get(s, key).value.key == key
    ensures Get(s, key).None? <==> !Has(s, key)
    ensures |Delete(s, key)| == |s| - (if Get(s, key).Some? then 1 else 0)
  {
    if s != [] && s[0].key != key {
      GetFacts(s[1..], key);
      if Get(s, key).None? {
        forall i | 0 <= i < |s| ensures s[i].key != key {
          if i > 0 {
            assert s[i] == s[1..][i - 1];
          }
        }
      }
    }
  }

  lemma {:induction false} SetAbsent<V>(s: seq<Slot<V>>, key: string, value: V)
    requires !Has(s, key)
    ensures Set(s, key, value) == s + [Slot(key, value)]
  {
    if s != [] {
      assert forall i :: 0 <= i < |s[1..]| ==> s[1..][i] == s[i + 1];
      SetAbsent(s[1..], key, value);
    }
  }

  lemma {:induction false} DeleteFacts<V>(s: seq<Slot<V>>, key: string)
    requires UniqueKeys(s)
    ensures UniqueKeys(Delete(s, key)) && !Has(Delete(s, key), key)
    ensures forall x :: x in Delete(s, key) ==> x in s
    decreases |s|
  {
    if s != [] {
      assert forall i :: 0 <= i < |s[1..]| ==> s[1..][i] == s[i + 1];
      if s[0].key != key {
        DeleteFacts(s[1..], key);
        var rest := Delete(s[1..], key);
        forall j | 0 <= j < |rest| ensures s[0].key != rest[j].key {
          assert rest[j] in s[1..];
        }
      }
    }
  }

  /** Deleting a key leaves what the others hold. */
  lemma {:induction false} GetOther<V>(s: seq<Slot<V>>, key: string, k: string)
    requires k != key
    ensures Get(Delete(s, key), k) == Get(s, k)
  {
    if s != [] && s[0].key != key {
      GetOther(s[1..], key, k);
      assert ([s[0]] + Delete(s[1..], key))[1..] == Delete(s[1..], key);
    }
  }

  lemma {:induction false} GetAppend<V>(s: seq<Slot<V>>, slot: Slot<V>, k: string)
    requires !Has(s, slot.key)
    ensures Get(s + [slot], k) == if k == slot.key then Some(slot) else Get(s, k)
  {
    if s != [] {
      assert (s + [slot])[1..] == s[1..] + [slot];
      assert forall i :: 0 <= i < |s[1..]| ==> s[1..][i] == s[i + 1];
      GetAppend(s[1..], slot, k);
    }
  }

  lemma AppendKeepsUnique<V>(s: seq<Slot<V>>, slot: Slot<V>)
    requires UniqueKeys(s) && !Has(s, slot.key)
    ensures UniqueKeys(s + [slot])
  {
  }

  /** Neither operation brings in a slot from elsewhere. */
  lemma {:induction false} Members<V>(s: seq<Slot<V>>, key: string, value: V)
    ensures forall x :: x in Delete(s, key) ==> x in s
    ensures forall x :: x in Set(s, key, value) ==> x in s || x == Slot(key, value)
  {
    if s != [] && s[0].key != key {
      Members(s[1..], key, value);
    }
  }

  lemma {:induction false} SetTwice<V>(s: seq<Slot<V>>, key: string, first: V, second: V)
    ensures Set(Set(s, key, first), key, second) == Set(s, key, second)
    ensures Get(Set(s, key, first), key) == Some(Slot(key, first))
  {
    if s != [] && s[0].key != key {
      SetTwice(s[1..], key, first, second);
    }
  }

  // ---- The order of use ----

  function LastUse(uses: seq<string>, key: string): int {
    if uses == [] then -1
    else if uses[|uses| - 1] == key then |uses| - 1
    else LastUse(uses[..|uses| - 1], key)
  }

  /** Least recently used first. */
  predicate ByUse<V>(s: seq<Slot<V>>, uses: seq<string>) {
    && (forall i :: 0 <= i < |s| ==> 0 <= LastUse(uses, s[i].key))
    && (forall i, j :: 0 <= i < j < |s| ==> LastUse(uses, s[i].key) < LastUse(uses, s[j].key))
  }

  /** A new use of `key` moves `key` to the end and leaves every other key's last use as it was. */
  lemma LastUseAppend(uses: seq<string>, key: string, k: string)
    ensures LastUse(uses + [key], k) == if k == key then |uses| else LastUse(uses, k)
    ensures LastUse(uses, k) < |uses|
  {
    assert (uses + [key])[..|uses|] == uses;
    LastUseBelow(uses, k);
  }

  lemma {:induction false} LastUseBelow(uses: seq<string>, k: string)
    ensures LastUse(uses, k) < |uses|
  {
    if uses != [] && uses[|uses| - 1] != k {
      LastUseBelow(uses[..|uses| - 1], k);
    }
  }

  /** Deleting keeps the order and the members, and with ordered uses leaves the key nowhere. */
  lemma {:induction false} DeleteKeepsUse<V>(s: seq<Slot<V>>, uses: seq<string>, key: string)
    requires ByUse(s, uses)
    ensures ByUse(Delete(s, key), uses) && !Has(Delete(s, key), key)
    ensures forall x :: x in Delete(s, key) ==> x in s
    decreases |s|
  {
    if s != [] {
      forall i, j | 0 <= i < j < |s[1..]|
        ensures LastUse(uses, s[1..][i].key) < LastUse(uses, s[1..][j].key)
      {
        assert s[1..][i] == s[i + 1] && s[1..][j] == s[j + 1];
      }
      if s[0].key == key {
        forall i | 0 <= i < |s[1..]| ensures s[1..][i].key != key {
          assert LastUse(uses, s[0].key) < LastUse(uses, s[i + 1].key);
        }
      } else {
        DeleteKeepsUse(s[1..], uses, key);
        var rest := Delete(s[1..], key);
        forall j | 0 <= j < |rest| ensures LastUse(uses, s[0].key) < LastUse(uses, rest[j].key) {
          assert rest[j] in s[1..];
        }
      }
    }
  }

  lemma AppendKeepsUse<V>(s: seq<Slot<V>>, uses: seq<string>, slot: Slot<V>)
    requires ByUse(s, uses) && !Has(s, slot.key)
    ensures ByUse(s + [slot], uses + [slot.key])
  {
    var t := s + [slot];
    forall i | 0 <= i < |t|
      ensures LastUse(uses + [slot.key], t[i].key) == if i == |s| then |uses| else LastUse(uses, s[i].key)
      ensures i < |s| ==> LastUse(uses, s[i].key) < |uses|
    {
      LastUseAppend(uses, slot.key, t[i].key);
    }
  }

  /** Only the keys and their order matter, and any part of the map from some slot on is in order too. */
  lemma UseOfKeys<V>(s: seq<Slot<V>>, t: seq<Slot<V>>, uses: seq<string>, k: nat)
    requires ByUse(s, uses) && |s| == |t| && forall i :: 0 <= i < |s| ==> s[i].key == t[i].key
    requires k <= |s|
    ensures ByUse(t[k..], uses)
  {
    forall i | 0 <= i < |t[k..]| ensures t[k..][i].key == s[k + i].key {
    }
  }

  /** A use of a key that is not there changes nothing for the others. */
  lemma UseElsewhere<V>(s: seq<Slot<V>>, uses: seq<string>, key: string)
    requires ByUse(s, uses) && !Has(s, key)
    ensures ByUse(s, uses + [key])
  {
    forall i | 0 <= i < |s| ensures LastUse(uses + [key], s[i].key) == LastUse(uses, s[i].key) {
      LastUseAppend(uses, key, s[i].key);
    }
  }

  lemma {:induction false} SetPresent<V>(s: seq<Slot<V>>, key: string, value: V, i: nat)
    requires UniqueKeys(s) && i < |s| && s[i].key == key
    ensures Set(s, key, value) == s[i := Slot(key, value)]
    decreases |s|
  {
    if i > 0 {
      assert s[0].key != key;
      assert forall j :: 0 <= j < |s[1..]| ==> s[1..][j] == s[j + 1];
      SetPresent(s[1..], key, value, i - 1);
    }
  }
}
