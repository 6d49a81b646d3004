/** The usage-report aggregations: egress leaders, and stored-data growth between two snapshots. */
module UsageReports {
  import opened Common
  import opened OrderedMap
  import opened StableSort

  datatype Row = Row(accountId: string, bucketId: Option<string>, bucketName: Option<string>,
                     storageBytes: Option<real>, egressBytes: real)

  // ---- Sums over ordered maps ----

  function Sum<V>(amount: V -> real, s: seq<Slot<V>>): real {
    if s == [] then 0.0 else amount(s[0].value) + Sum(amount, s[1..])
  }

  function AmountAt<V>(amount: V -> real, s: seq<Slot<V>>, key: string): real {
    if Get(s, key).Some? then amount(Get(s, key).value.value) else 0.0
  }

  lemma {:induction false} SetFacts<V>(amount: V -> real, s: seq<Slot<V>>, key: string, value: V, other: string)
    ensures Get(Set(s, key, value), other) == if other == key then Some(Slot(key, value)) else Get(s, other)
    ensures Sum(amount, Set(s, key, value)) == Sum(amount, s) - AmountAt(amount, s, key) + amount(value)
  {
    if s != [] && s[0].key != key {
      SetFacts(amount, s[1..], key, value, other);
    }
  }

  function Keys<V>(s: seq<Slot<V>>): (r: seq<string>)
    ensures |r| == |s| && forall i :: 0 <= i < |r| ==> r[i] == s[i].key
  {
    seq(|s|, i requires 0 <= i < |s| => s[i].key)
  }

  lemma {:induction false} KeysOfSet<V>(s: seq<Slot<V>>, key: string, value: V)
    ensures Keys(Set(s, key, value)) == Keys(s) + if Has(s, key) then [] else [key]
    ensures UniqueKeys(s) ==> UniqueKeys(Set(s, key, value))
  {
    if Has(s, key) {
      SetPresent(s, key, value);
    } else {
      SetAbsent(s, key, value);
    }
    assert forall i :: 0 <= i < |s| ==> Keys(Set(s, key, value))[i] == Keys(s)[i];
  }

  lemma {:induction false} SetPresent<V>(s: seq<Slot<V>>, key: string, value: V)
    requires Has(s, key)
    ensures |Set(s, key, value)| == |s| && forall i :: 0 <= i < |s| ==> Set(s, key, value)[i].key == s[i].key
  {
    if s[0].key != key {
      var i :| 0 <= i < |s| && s[i].key == key;
      assert s[1..][i - 1].key == key;
      SetPresent(s[1..], key, value);
    }
  }

  // ---- Egress leaders ----

  datatype Leader = Leader(key: string, accountId: string, bucketName: Option<string>, egress: real)

  /** `x || y`: a missing or empty string is falsy. */
  function OrElse(x: Option<string>, y: Option<string>): Option<string> {
    if x.Some? && x.value != "" then x else if y.Some? && y.value != "" then y else None
  }

  function GroupKey(row: Row, byBucket: bool): Option<string> {
    if byBucket then OrElse(row.bucketId, row.bucketName) else OrElse(Some(row.accountId), None)
  }

  /** A row counts for its account, or for its bucket by the first of id and name that is not empty, if any. */
  lemma KeyOfRow(row: Row, byBucket: bool, key: string)
    ensures GroupKey(row, byBucket) == Some(key) <==>
              && key != ""
              && if !byBucket then key == row.accountId
                 else if row.bucketId in {None, Some("")} then row.bucketName == Some(key)
                 else row.bucketId == Some(key)
  {
  }

  /** The leader of `key` with this row's egress added; the first row of a key names its account and bucket. */
  function WithRow(g: seq<Slot<Leader>>, row: Row, key: string): Leader {
    var leader := if Get(g, key).Some? then Get(g, key).value.value
                  else Leader(key, row.accountId, row.bucketName, 0.0);
    leader.(egress := leader.egress + row.egressBytes)
  }

  function AddRow(g: seq<Slot<Leader>>, row: Row, byBucket: bool): seq<Slot<Leader>> {
    match GroupKey(row, byBucket)
    case None => g
    case Some(key) => Set(g, key, WithRow(g, row, key))
  }

  function Group(rows: seq<Row>, byBucket: bool): seq<Slot<Leader>> {
    if rows == [] then [] else AddRow(Group(rows[..|rows| - 1], byBucket), rows[|rows| - 1], byBucket)
  }

  function Values<V>(s: seq<Slot<V>>): (r: seq<V>)
    ensures |r| == |s| && forall i :: 0 <= i < |r| ==> r[i] == s[i].value
  {
    seq(|s|, i requires 0 <= i < |s| => s[i].value)
  }

  predicate ByEgress(a: Leader, b: Leader) {
    a.egress >= b.egress
  }

  /** The grouping loop, then the stable sort by descending egress. */
  method ComputeEgressLeaders(rows: seq<Row>, byBucket: bool) returns (leaders: seq<Leader>)
    ensures leaders == Sort(ByEgress, Values(Group(rows, byBucket)))
  {
    var g: seq<Slot<Leader>> := [];
    for k := 0 to |rows|
      invariant g == Group(rows[..k], byBucket)
    {
      assert rows[..k + 1][..k] == rows[..k];
      var row := rows[k];
      var key := GroupKey(row, byBucket);
      if key.None? {
        continue;
      }
      if Get(g, key.value).None? {
        var none := Leader(key.value, row.accountId, row.bucketName, 0.0);
        SetTwice(g, key.value, none, none.(egress := none.egress + row.egressBytes));
        g := Set(g, key.value, none);
      }
      var leader := Get(g, key.value).value.value;
      g := Set(g, key.value, leader.(egress := leader.egress + row.egressBytes));
    }
    assert rows[..|rows|] == rows;
    leaders := Sort(ByEgress, Values(g));
  }

  /** The bytes of the rows grouped under `key`. */
  function EgressOf(rows: seq<Row>, byBucket: bool, key: string): real {
    if rows == [] then 0.0
    else
      var last := rows[|rows| - 1];
      EgressOf(rows[..|rows| - 1], byBucket, key) +
      if GroupKey(last, byBucket) == Some(key) then last.egressBytes else 0.0
  }

  function KeyedEgress(rows: seq<Row>, byBucket: bool): real {
    if rows == [] then 0.0
    else
      var last := rows[|rows| - 1];
      KeyedEgress(rows[..|rows| - 1], byBucket) + if GroupKey(last, byBucket).Some? then last.egressBytes else 0.0
  }

  /** The first row grouped under `key`. */
  function FirstRow(rows: seq<Row>, byBucket: bool, key: string): Option<Row> {
    if rows == [] then None
    else
      var earlier := FirstRow(rows[..|rows| - 1], byBucket, key);
      if earlier.Some? then earlier
      else if GroupKey(rows[|rows| - 1], byBucket) == Some(key) then Some(rows[|rows| - 1])
      else None
  }

  /** The keys in the order their first rows come. */
  function FirstAppearances(rows: seq<Row>, byBucket: bool): seq<string> {
    if rows == [] then []
    else
      var before := FirstAppearances(rows[..|rows| - 1], byBucket);
      var key := GroupKey(rows[|rows| - 1], byBucket);
      before + if key.Some? && key.value !in before then [key.value] else []
  }

  function Egress(leader: Leader): real {
    leader.egress
  }

  /** Each leader carries the whole egress of its key, and names the account and bucket of its first row. */
  lemma {:induction false} LeaderIsTotal(rows: seq<Row>, byBucket: bool, key: string)
    ensures var found := Get(Group(rows, byBucket), key);
            var first := FirstRow(rows, byBucket, key);
            && (found.Some? <==> first.Some?)
            && (found.Some? ==>
                  found.value.value ==
                  Leader(key, first.value.accountId, first.value.bucketName, EgressOf(rows, byBucket, key)))
            && (found.None? ==> EgressOf(rows, byBucket, key) == 0.0)
  {
    if rows != [] {
      var before := rows[..|rows| - 1];
      LeaderIsTotal(before, byBucket, key);
      var last := rows[|rows| - 1];
      var k := GroupKey(last, byBucket);
      if k.Some? {
        SetFacts(Egress, Group(before, byBucket), k.value, WithRow(Group(before, byBucket), last, k.value), key);
      }
    }
  }

  lemma AddRowFacts(g: seq<Slot<Leader>>, row: Row, byBucket: bool)
    requires UniqueKeys(g)
    ensures var added := AddRow(g, row, byBucket);
            var key := GroupKey(row, byBucket);
            && UniqueKeys(added)
            && Keys(added) == Keys(g) + (if key.Some? && key.value !in Keys(g) then [key.value] else [])
            && Sum(Egress, added) == Sum(Egress, g) + if key.Some? then row.egressBytes else 0.0
  {
    hide UniqueKeys, Set, Get, Sum, Has, GroupKey, Keys;
    var key := GroupKey(row, byBucket);
    if key.Some? {
      SetFacts(Egress, g, key.value, WithRow(g, row, key.value), key.value);
      KeysOfSet(g, key.value, WithRow(g, row, key.value));
      HasKey(g, key.value);
    }
  }

  /** The groups come in order of first appearance, each key once, and hold exactly the egress of the keyed rows. */
  lemma {:induction false} GroupsConserve(rows: seq<Row>, byBucket: bool)
    ensures var g := Group(rows, byBucket);
            && Keys(g) == FirstAppearances(rows, byBucket) && UniqueKeys(g)
            && Sum(Egress, g) == KeyedEgress(rows, byBucket)
  {
    if rows != [] {
      hide AddRow, UniqueKeys, Keys, Sum, GroupKey;
      var before := rows[..|rows| - 1];
      GroupsConserve(before, byBucket);
      AddRowFacts(Group(before, byBucket), rows[|rows| - 1], byBucket);
    }
  }

  lemma HasKey<V>(s: seq<Slot<V>>, key: string)
    ensures key in Keys(s) <==> Has(s, key)
  {
    if key in Keys(s) {
      var i :| 0 <= i < |s| && Keys(s)[i] == key;
      assert s[i].key == key;
    }
    if Has(s, key) {
      var i :| 0 <= i < |s| && s[i].key == key;
      assert Keys(s)[i] == key;
    }
  }

  function Total<T>(amount: T -> real, s: seq<T>): real {
    if s == [] then 0.0 else amount(s[0]) + Total(amount, s[1..])
  }

  lemma {:induction false} TotalOfInsert<T>(le: Order<T>, amount: T -> real, x: T, s: seq<T>)
    ensures Total(amount, Insert(le, x, s)) == amount(x) + Total(amount, s)
    decreases |s|
  {
    if s != [] && !le(x, s[0]) {
      TotalOfInsert(le, amount, x, s[1..]);
    } else {
      assert ([x] + s)[1..] == s;
    }
  }

  lemma {:induction false} TotalOfSort<T>(le: Order<T>, amount: T -> real, s: seq<T>)
    ensures Total(amount, Sort(le, s)) == Total(amount, s)
    decreases |s|
  {
    if s != [] {
      TotalOfSort(le, amount, s[1..]);
      TotalOfInsert(le, amount, s[0], Sort(le, s[1..]));
    }
  }

  lemma {:induction false} TotalOfValues<V>(amount: V -> real, s: seq<Slot<V>>)
    ensures Total(amount, Values(s)) == Sum(amount, s)
    decreases |s|
  {
    if s != [] {
      TotalOfValues(amount, s[1..]);
      assert Values(s)[1..] == Values(s[1..]);
    }
  }

  /**
   * The leaders are sorted by descending egress, those of equal egress all in order of first appearance, and
   * together they hold exactly the egress of the rows that have a key.
   */
  lemma LeadersRankAndConserve(rows: seq<Row>, byBucket: bool, x: Leader, y: Leader)
    ensures var leaders := Sort(ByEgress, Values(Group(rows, byBucket)));
            && Sorted(ByEgress, leaders)
            && multiset(leaders) == multiset(Values(Group(rows, byBucket)))
            && Total(Egress, leaders) == KeyedEgress(rows, byBucket)
            && TiedWith(ByEgress, leaders, x) == TiedWith(ByEgress, Values(Group(rows, byBucket)), x)
            && (x.egress == y.egress ==> FirstOf(leaders, x, y) == FirstOf(Values(Group(rows, byBucket)), x, y))
  {
    var values := Values(Group(rows, byBucket));
    ByEgressIsPreorder();
    SortFacts(ByEgress, values);
    TotalOfSort(ByEgress, Egress, values);
    TotalOfValues(Egress, Group(rows, byBucket));
    GroupsConserve(rows, byBucket);
    SortKeepsTies(ByEgress, values, x);
    if x.egress == y.egress {
      SortIsStable(ByEgress, values, x, y);
    }
  }

  lemma ByEgressIsPreorder()
    ensures TotalPreorder(ByEgress)
  {
  }

  // ---- Growth between two snapshots ----

  function Identity(x: real): real {
    x
  }

  /** The stored bytes of an account; rows without storage data are skipped. */
  function StoredBy(rows: seq<Row>): seq<Slot<real>> {
    if rows == [] then []
    else
      var before := StoredBy(rows[..|rows| - 1]);
      var last := rows[|rows| - 1];
      if last.storageBytes.None? then before
      else Set(before, last.accountId, AmountAt(Identity, before, last.accountId) + last.storageBytes.value)
  }

  method StoredByAccount(rows: seq<Row>) returns (m: seq<Slot<real>>)
    ensures m == StoredBy(rows)
  {
    m := [];
    for k := 0 to |rows|
      invariant m == StoredBy(rows[..k])
    {
      assert rows[..k + 1][..k] == rows[..k];
      if rows[k].storageBytes.None? {
        continue;
      }
      var old' := Get(m, rows[k].accountId);
      m := Set(m, rows[k].accountId, (if old'.Some? then old'.value.value else 0.0) + rows[k].storageBytes.value);
    }
    assert rows[..|rows|] == rows;
  }

  function StoredBytes(rows: seq<Row>): real {
    if rows == [] then 0.0
    else
      var last := rows[|rows| - 1];
      StoredBytes(rows[..|rows| - 1]) + if last.storageBytes.Some? then last.storageBytes.value else 0.0
  }

  lemma {:induction false} StoredConserves(rows: seq<Row>)
    ensures Sum(Identity, StoredBy(rows)) == StoredBytes(rows) && UniqueKeys(StoredBy(rows))
  {
    if rows != [] {
      var before := StoredBy(rows[..|rows| - 1]);
      var last := rows[|rows| - 1];
      StoredConserves(rows[..|rows| - 1]);
      if last.storageBytes.Some? {
        var value := AmountAt(Identity, before, last.accountId) + last.storageBytes.value;
        SetFacts(Identity, before, last.accountId, value, last.accountId);
        KeysOfSet(before, last.accountId, value);
      }
    }
  }

  function StoredOf(rows: seq<Row>, account: string): real {
    if rows == [] then 0.0
    else
      var last := rows[|rows| - 1];
      StoredOf(rows[..|rows| - 1], account) +
      if last.accountId == account && last.storageBytes.Some? then last.storageBytes.value else 0.0
  }

  /** Each account's amount is the sum over its rows, and an account is present when one of them has storage data. */
  lemma {:induction false} StoredIsTotal(rows: seq<Row>, account: string)
    ensures AmountAt(Identity, StoredBy(rows), account) == StoredOf(rows, account)
    ensures Get(StoredBy(rows), account).Some? <==>
            exists r :: r in rows && r.accountId == account && r.storageBytes.Some?
  {
    if rows != [] {
      var before, last := rows[..|rows| - 1], rows[|rows| - 1];
      assert rows == before + [last];
      StoredIsTotal(before, account);
      if last.storageBytes.Some? {
        var value := AmountAt(Identity, StoredBy(before), last.accountId) + last.storageBytes.value;
        SetFacts(Identity, StoredBy(before), last.accountId, value, account);
      }
    }
  }

  datatype Growth = Growth(accountId: string, firstBytes: real, lastBytes: real, growthPct: Option<real>, isNew: bool)

  function GrowthBytes(g: Growth): real {
    g.lastBytes - g.firstBytes
  }

  function GrowthOf(then': seq<Slot<real>>, now: seq<Slot<real>>, account: string): Growth {
    var first, last := AmountAt(Identity, then', account), AmountAt(Identity, now, account);
    var had := Get(then', account).Some?;
    Growth(account, first, last, if had && first > 0.0 then Some((last - first) / first * 100.0) else None, !had)
  }

  /**
   * What a growth row says of its account, in terms of the rows of both snapshots: the stored bytes then and
   * now, whether it is new, and the growth in per cent of what it had, when it had anything.
   */
  lemma GrowthIsChange(thenRows: seq<Row>, nowRows: seq<Row>, account: string)
    ensures var g := GrowthOf(StoredBy(thenRows), StoredBy(nowRows), account);
            var was, now := StoredOf(thenRows, account), StoredOf(nowRows, account);
            var had := exists r :: r in thenRows && r.accountId == account && r.storageBytes.Some?;
            && g.accountId == account && g.firstBytes == was && g.lastBytes == now
            && (g.isNew <==> !had)
            && (g.growthPct.Some? <==> had && was > 0.0)
            && (g.growthPct.Some? ==> g.growthPct.value * was == (now - was) * 100.0)
  {
    StoredIsTotal(thenRows, account);
    StoredIsTotal(nowRows, account);
    hide StoredBy, StoredOf, Get;
    if StoredOf(thenRows, account) > 0.0 {
      PerCentOf(StoredOf(nowRows, account) - StoredOf(thenRows, account), StoredOf(thenRows, account));
    }
  }

  lemma PerCentOf(change: real, base: real)
    requires base > 0.0
    ensures change / base * 100.0 * base == change * 100.0
  {
    var share := change / base;
    assert share * base == change;
  }

  /** The keys of `now` that `then'` does not have, in order. */
  function NewKeys(then': seq<Slot<real>>, now: seq<Slot<real>>): seq<string> {
    if now == [] then []
    else (if Get(then', now[0].key).Some? then [] else [now[0].key]) + NewKeys(then', now[1..])
  }

  /** The insertion order of `new Set([...then.keys(), ...now.keys()])`. */
  function Accounts(then': seq<Slot<real>>, now: seq<Slot<real>>): seq<string> {
    Keys(then') + NewKeys(then', now)
  }

  function Growths(then': seq<Slot<real>>, now: seq<Slot<real>>, accounts: seq<string>): (r: seq<Growth>)
    ensures |r| == |accounts| && forall i :: 0 <= i < |r| ==> r[i] == GrowthOf(then', now, accounts[i])
  {
    seq(|accounts|, i requires 0 <= i < |accounts| => GrowthOf(then', now, accounts[i]))
  }

  predicate ByGrowth(a: Growth, b: Growth) {
    GrowthBytes(a) >= GrowthBytes(b)
  }

  method ComputeSnapshotGrowth(thenRows: seq<Row>, nowRows: seq<Row>) returns (out: seq<Growth>)
    ensures var then', now := StoredBy(thenRows), StoredBy(nowRows);
            out == Sort(ByGrowth, Growths(then', now, Accounts(then', now)))
  {
    var then' := StoredByAccount(thenRows);
    var now := StoredByAccount(nowRows);
    var accounts := Accounts(then', now);
    out := [];
    for k := 0 to |accounts|
      invariant out == Growths(then', now, accounts[..k])
    {
      out := out + [GrowthOf(then', now, accounts[k])];
    }
    assert accounts[..|accounts|] == accounts;
    out := Sort(ByGrowth, out);
  }

  // ---- Conservation of the growth ----

  /** What `now` holds under the given keys. */
  function AmountsAt(now: seq<Slot<real>>, keys: seq<string>): real {
    if keys == [] then 0.0 else AmountAt(Identity, now, keys[0]) + AmountsAt(now, keys[1..])
  }

  predicate Distinct(keys: seq<string>) {
    forall i, j :: 0 <= i < j < |keys| ==> keys[i] != keys[j]
  }

  lemma {:induction false} AmountsOfHead(now: seq<Slot<real>>, keys: seq<string>)
    requires now != [] && UniqueKeys(now) && Distinct(keys)
    ensures AmountsAt(now, keys) == AmountsAt(now[1..], keys) + if now[0].key in keys then now[0].value else 0.0
    decreases |keys|
  {
    if keys != [] {
      AmountsOfHead(now, keys[1..]);
      if keys[0] == now[0].key {
        GetFacts(now[1..], keys[0]);
        assert forall i :: 0 <= i < |now[1..]| ==> now[1..][i] == now[i + 1];
        assert keys[0] !in keys[1..];
      } else {
        assert now[0].key in keys <==> now[0].key in keys[1..];
      }
    }
  }

  lemma {:induction false} AmountsAppend(now: seq<Slot<real>>, a: seq<string>, b: seq<string>)
    ensures AmountsAt(now, a + b) == AmountsAt(now, a) + AmountsAt(now, b)
  {
    if a == [] {
      assert a + b == b;
    } else {
      assert (a + b)[1..] == a[1..] + b;
      AmountsAppend(now, a[1..], b);
    }
  }

  lemma {:induction false} AmountsOfNone(now: seq<Slot<real>>, keys: seq<string>)
    requires now == []
    ensures AmountsAt(now, keys) == 0.0
  {
    if keys != [] {
      AmountsOfNone(now, keys[1..]);
    }
  }

  /** Distinct keys that cover a map collect all it holds. */
  lemma {:induction false} CoveringKeysCollectAll(now: seq<Slot<real>>, keys: seq<string>)
    requires UniqueKeys(now) && Distinct(keys) && forall i :: 0 <= i < |now| ==> now[i].key in keys
    ensures AmountsAt(now, keys) == Sum(Identity, now)
    decreases |now|
  {
    if now == [] {
      AmountsOfNone(now, keys);
    } else {
      assert forall i :: 0 <= i < |now[1..]| ==> now[1..][i] == now[i + 1];
      AmountsOfHead(now, keys);
      CoveringKeysCollectAll(now[1..], keys);
    }
  }

  lemma {:induction false} NewKeysFacts(then': seq<Slot<real>>, now: seq<Slot<real>>)
    requires UniqueKeys(now)
    ensures forall k :: k in NewKeys(then', now) <==> Has(now, k) && !Has(then', k)
    ensures Distinct(NewKeys(then', now))
    decreases |now|
  {
    if now != [] {
      var rest := now[1..];
      assert forall i :: 0 <= i < |rest| ==> rest[i] == now[i + 1];
      NewKeysFacts(then', rest);
      GetFacts(then', now[0].key);
      forall k ensures Has(now, k) <==> k == now[0].key || Has(rest, k) {
        if Has(rest, k) {
          var i :| 0 <= i < |rest| && rest[i].key == k;
          assert now[i + 1].key == k;
        }
      }
      assert !Has(rest, now[0].key);
    }
  }

  /** The accounts of the report are those of either snapshot, each once. */
  lemma AccountsFacts(then': seq<Slot<real>>, now: seq<Slot<real>>)
    requires UniqueKeys(then') && UniqueKeys(now)
    ensures Distinct(Accounts(then', now))
    ensures forall k :: k in Accounts(then', now) <==> Has(then', k) || Has(now, k)
  {
    NewKeysFacts(then', now);
    forall k ensures k in Keys(then') <==> Has(then', k) {
      HasKey(then', k);
    }
    var old', new' := Keys(then'), NewKeys(then', now);
    forall i, j | 0 <= i < j < |old' + new'| ensures (old' + new')[i] != (old' + new')[j] {
      if i < |old'| <= j {
        assert old'[i] in old' && new'[j - |old'|] in new';
      }
    }
  }

  lemma {:induction false} TotalGrowth(then': seq<Slot<real>>, now: seq<Slot<real>>, accounts: seq<string>)
    ensures Total(GrowthBytes, Growths(then', now, accounts)) == AmountsAt(now, accounts) - AmountsAt(then', accounts)
    decreases |accounts|
  {
    if accounts != [] {
      TotalGrowth(then', now, accounts[1..]);
      assert Growths(then', now, accounts)[1..] == Growths(then', now, accounts[1..]);
    }
  }

  lemma CoveredBy(s: seq<Slot<real>>, accounts: seq<string>)
    requires forall k :: Has(s, k) ==> k in accounts
    ensures forall i :: 0 <= i < |s| ==> s[i].key in accounts
  {
    assert forall i :: 0 <= i < |s| ==> Has(s, s[i].key);
  }

  /**
   * The report is sorted by descending growth, has one row for every account of either snapshot, and its rows
   * add up to exactly the change in stored bytes.
   */
  lemma GrowthRanksAndConserves(thenRows: seq<Row>, nowRows: seq<Row>)
    ensures var then', now := StoredBy(thenRows), StoredBy(nowRows);
            var rows := Growths(then', now, Accounts(then', now));
            var out := Sort(ByGrowth, rows);
            && Sorted(ByGrowth, out) && multiset(out) == multiset(rows)
            && Distinct(Accounts(then', now))
            && (forall k :: k in Accounts(then', now) <==> Has(then', k) || Has(now, k))
            && Total(GrowthBytes, out) == StoredBytes(nowRows) - StoredBytes(thenRows)
  {
    hide StoredBy, StoredBytes, UniqueKeys, Has, Accounts, Growths, Sort, Sorted, Total, Sum, Distinct;
    var then', now := StoredBy(thenRows), StoredBy(nowRows);
    var accounts := Accounts(then', now);
    StoredConserves(thenRows);
    StoredConserves(nowRows);
    AccountsFacts(then', now);
    ByGrowthIsPreorder();
    SortFacts(ByGrowth, Growths(then', now, accounts));
    TotalOfSort(ByGrowth, GrowthBytes, Growths(then', now, accounts));
    TotalGrowth(then', now, accounts);
    CoveredBy(then', accounts);
    CoveredBy(now, accounts);
    CoveringKeysCollectAll(then', accounts);
    CoveringKeysCollectAll(now, accounts);
  }

  lemma ByGrowthIsPreorder()
    ensures TotalPreorder(ByGrowth)
  {
  }
}
