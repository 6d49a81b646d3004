/** The key-sorted normal form in which contract fixtures are compared. */
module StableJson {
  import opened StableSort
  import opened Text

  /** Strings as sequences of UTF-16 code units. */
  type Str = seq<nat>

  /** Numbers are opaque; an object lists its own properties in enumeration order. */
  datatype Json =
    | Null
    | Boolean(b: bool)
    | Number(code: int)
    | Text(s: Str)
    | Arr(items: seq<Json>)
    | Obj(fields: seq<Field>)

  datatype Field = Field(key: Str, value: Json)

  /** "required" */
  const REQUIRED: Str := [0x72, 0x65, 0x71, 0x75, 0x69, 0x72, 0x65, 0x64]

  // ---- Orders on strings ----

  /** Code-unit order, the default of `Array.prototype.sort`. */
  predicate UnitsLe(a: Str, b: Str) {
    a == [] || (b != [] && (a[0] < b[0] || (a[0] == b[0] && UnitsLe(a[1..], b[1..]))))
  }

  function IndexValue(k: Str): nat {
    if k == [] then 0 else IndexValue(k[..|k| - 1]) * 10 + DigitValue(k[|k| - 1])
  }

  /** Decimal digits without a needless leading zero. */
  predicate IsDecimal(k: Str) {
    k != [] && (forall i :: 0 <= i < |k| ==> 0x30 <= k[i] <= 0x39) && (|k| > 1 ==> k[0] != 0x30)
  }

  /** An array-index key: a canonical decimal below 2^32 - 1. */
  predicate IsIndex(k: Str) {
    IsDecimal(k) && IndexValue(k) < 0xFFFF_FFFF
  }

  /** Index keys come first, by value; other keys stay as they are. */
  predicate ByEnumeration(f: Field, g: Field) {
    if IsIndex(f.key) then IsIndex(g.key) ==> IndexValue(f.key) <= IndexValue(g.key) else !IsIndex(g.key)
  }

  /** `localeLe(a, b)` says that `a.localeCompare(b) <= 0`. */
  function ByLocale(localeLe: Order<Str>): Order<Field> {
    (f: Field, g: Field) => localeLe(f.key, g.key)
  }

  /** Code-unit order of texts; anything else, which is never sorted, before them. */
  predicate ByText(x: Json, y: Json) {
    !x.Text? || (y.Text? && UnitsLe(x.s, y.s))
  }

  // ---- The normal form ----

  predicate AllText(items: seq<Json>) {
    forall i :: 0 <= i < |items| ==> items[i].Text?
  }

  /** `Object.fromEntries`: the properties of the new object, in enumeration order. */
  function FromEntries(fields: seq<Field>): seq<Field> {
    Sort(ByEnumeration, fields)
  }

  /** The sort looks at keys only, so it does not matter that the values are normalized before it. */
  function Stable(v: Json, parentKey: Str, localeLe: Order<Str>): Json
    decreases v, 0
  {
    match v
    case Arr(items) =>
      var next := StableItems(items, localeLe);
      Arr(if parentKey == REQUIRED && AllText(next) then Sort(ByText, next) else next)
    case Obj(fields) => Obj(FromEntries(Sort(ByLocale(localeLe), StableFields(fields, localeLe))))
    case _ => v
  }

  function StableItems(items: seq<Json>, localeLe: Order<Str>): (r: seq<Json>)
    ensures |r| == |items|
    ensures forall i :: 0 <= i < |items| ==> r[i] == Stable(items[i], [], localeLe)
    decreases items, 1
  {
    if items == [] then [] else [Stable(items[0], [], localeLe)] + StableItems(items[1..], localeLe)
  }

  function StableField(f: Field, localeLe: Order<Str>): Field
    decreases f, 1
  {
    Field(f.key, Stable(f.value, f.key, localeLe))
  }

  function StableFields(fields: seq<Field>, localeLe: Order<Str>): (r: seq<Field>)
    ensures |r| == |fields|
    ensures forall i :: 0 <= i < |fields| ==> r[i] == StableField(fields[i], localeLe)
    decreases fields, 1
  {
    if fields == [] then [] else [StableField(fields[0], localeLe)] + StableFields(fields[1..], localeLe)
  }

  // ---- What the form should decide ----

  predicate UniqueKeys(fields: seq<Field>) {
    forall i, j :: 0 <= i < j < |fields| ==> fields[i].key != fields[j].key
  }

  /** Own properties have unique keys and are enumerated with the index keys first. */
  predicate WellFormed(v: Json) {
    match v
    case Arr(items) => forall i :: 0 <= i < |items| ==> WellFormed(items[i])
    case Obj(fields) =>
      && UniqueKeys(fields) && Sorted(ByEnumeration, fields)
      && forall i :: 0 <= i < |fields| ==> WellFormed(fields[i].value)
    case _ => true
  }

  /** Equal up to the order of object keys at any depth and of all-string arrays directly under `required`. */
  ghost predicate Equivalent(a: Json, b: Json, parentKey: Str)
    decreases a
  {
    match a
    case Arr(items) =>
      b.Arr? &&
      (if parentKey == REQUIRED && AllText(items) then AllText(b.items) && multiset(items) == multiset(b.items)
       else |items| == |b.items| && forall i :: 0 <= i < |items| ==> Equivalent(items[i], b.items[i], []))
    case Obj(fields) =>
      && b.Obj? && |fields| == |b.fields|
      && (forall i :: 0 <= i < |fields| ==>
            exists j :: 0 <= j < |b.fields| && b.fields[j].key == fields[i].key &&
                        Equivalent(fields[i].value, b.fields[j].value, fields[i].key))
    case _ => a == b
  }

  /** Keys whose order neither the comparison nor the enumeration settles. */
  predicate KeysTie(k: Str, l: Str, localeLe: Order<Str>) {
    !IsIndex(k) && !IsIndex(l) && localeLe(k, l) && localeLe(l, k)
  }

  /** No object anywhere has two different keys that compare as equal. */
  predicate TieFree(v: Json, localeLe: Order<Str>) {
    match v
    case Arr(items) => forall i :: 0 <= i < |items| ==> TieFree(items[i], localeLe)
    case Obj(fields) =>
      && (forall i, j :: 0 <= i < j < |fields| ==> !KeysTie(fields[i].key, fields[j].key, localeLe))
      && forall i :: 0 <= i < |fields| ==> TieFree(fields[i].value, localeLe)
    case _ => true
  }

  // ---- The orders are total preorders ----

  lemma {:induction false} UnitsLeFacts(a: Str, b: Str, c: Str)
    ensures UnitsLe(a, b) || UnitsLe(b, a)
    ensures UnitsLe(a, b) && UnitsLe(b, c) ==> UnitsLe(a, c)
    ensures UnitsLe(a, b) && UnitsLe(b, a) ==> a == b
    decreases |a|
  {
    if a != [] && b != [] {
      UnitsLeFacts(a[1..], b[1..], if c == [] then [] else c[1..]);
      assert a == [a[0]] + a[1..] && b == [b[0]] + b[1..];
    }
  }

  lemma ByTextIsPreorder()
    ensures TotalPreorder(ByText)
  {
    forall x, y, z ensures (ByText(x, y) || ByText(y, x)) && (ByText(x, y) && ByText(y, z) ==> ByText(x, z)) {
      if x.Text? && y.Text? {
        UnitsLeFacts(x.s, y.s, if z.Text? then z.s else []);
      }
    }
  }

  /** The order of the normal form's properties. */
  function ByNormal(localeLe: Order<Str>): Order<Field> {
    Combined(ByEnumeration, ByLocale(localeLe))
  }

  lemma ByNormalIsPreorder(localeLe: Order<Str>)
    requires TotalPreorder(localeLe)
    ensures TotalPreorder(ByEnumeration) && TotalPreorder(ByLocale(localeLe)) && TotalPreorder(ByNormal(localeLe))
  {
    hide IsIndex, IndexValue;
    var le := ByLocale(localeLe);
    forall f, g, h ensures (le(f, g) || le(g, f)) && (le(f, g) && le(g, h) ==> le(f, h)) {
      assert localeLe(f.key, g.key) || localeLe(g.key, f.key);
      assert localeLe(f.key, g.key) && localeLe(g.key, h.key) ==> localeLe(f.key, h.key);
    }
    CombinedIsPreorder(ByEnumeration, le);
  }

  lemma StableOfObject(fields: seq<Field>, parentKey: Str, localeLe: Order<Str>)
    requires TotalPreorder(localeLe)
    ensures Stable(Obj(fields), parentKey, localeLe) == Obj(Sort(ByNormal(localeLe), StableFields(fields, localeLe)))
  {
    ByNormalIsPreorder(localeLe);
    TwoPasses(ByEnumeration, ByLocale(localeLe), StableFields(fields, localeLe));
  }

  lemma LeadingDigit(k: Str)
    requires IsDecimal(k) && k[0] != 0x30
    ensures IndexValue(k) >= 1
    decreases |k|
  {
    if |k| > 1 {
      LeadingDigit(k[..|k| - 1]);
    }
  }

  /** Different index keys have different values. */
  lemma {:induction false} IndexValueInjective(k: Str, l: Str)
    requires IsDecimal(k) && IsDecimal(l) && IndexValue(k) == IndexValue(l)
    ensures k == l
    decreases |k|
  {
    var p, q := k[..|k| - 1], l[..|l| - 1];
    if |k| > 1 {
      LeadingDigit(p);
    }
    if |l| > 1 {
      LeadingDigit(q);
    }
    assert IndexValue(p) == IndexValue(q);
    if |k| > 1 && |l| > 1 {
      IndexValueInjective(p, q);
    }
    assert k == p + [k[|k| - 1]] && l == q + [l[|l| - 1]];
  }

  lemma TiesAreKeyTies(f: Field, g: Field, localeLe: Order<Str>)
    requires f.key != g.key
    ensures Tied(ByNormal(localeLe), f, g) <==> KeysTie(f.key, g.key, localeLe)
  {
    hide IndexValue, IsDecimal;
    if IsIndex(f.key) && IsIndex(g.key) && IndexValue(f.key) == IndexValue(g.key) {
      IndexValueInjective(f.key, g.key);
    }
    var major, minor := ByEnumeration, ByLocale(localeLe);
    assert ByNormal(localeLe)(f, g) <==> major(f, g) && (major(g, f) ==> minor(f, g));
    assert ByNormal(localeLe)(g, f) <==> major(g, f) && (major(f, g) ==> minor(g, f));
  }

  // ---- What stands where in a form ----

  /** `String(n)` */
  function DecimalUnits(n: nat): Str {
    if n < 10 then [0x30 + n] else DecimalUnits(n / 10) + [0x30 + n % 10]
  }

  /** A canonical decimal is a number written out, and its value is that number. */
  lemma {:induction false} DecimalIsWritten(k: Str, n: nat)
    ensures IsDecimal(k) && IndexValue(k) == n <==> k == DecimalUnits(n)
    decreases |k|
  {
    if IsDecimal(k) {
      DecimalIsPrinted(k);
    }
    PrintedIsDecimal(n);
  }

  lemma {:induction false} DecimalIsPrinted(k: Str)
    requires IsDecimal(k)
    ensures k == DecimalUnits(IndexValue(k))
    decreases |k|
  {
    var front, last := k[..|k| - 1], k[|k| - 1];
    assert k == front + [last];
    if front != [] {
      DecimalIsPrinted(front);
      LeadingDigit(front);
      PrintedGrows(IndexValue(front), last - 0x30);
    }
  }

  lemma PrintedGrows(m: nat, d: nat)
    requires m >= 1 && d < 10
    ensures DecimalUnits(m * 10 + d) == DecimalUnits(m) + [0x30 + d]
  {
  }

  lemma {:induction false} PrintedIsDecimal(n: nat)
    ensures IsDecimal(DecimalUnits(n)) && IndexValue(DecimalUnits(n)) == n
    ensures n > 0 ==> DecimalUnits(n)[0] != 0x30
    decreases n
  {
    var k := DecimalUnits(n);
    if n < 10 {
      assert k[..0] == [];
    } else {
      PrintedIsDecimal(n / 10);
      assert k[..|k| - 1] == DecimalUnits(n / 10);
    }
  }

  /** The index keys are the numbers up to 2^32 - 2, written out. */
  lemma IndexIsArrayIndex(k: Str)
    ensures IsIndex(k) <==> exists n: nat :: n <= 4294967294 && k == DecimalUnits(n)
  {
    if IsIndex(k) {
      DecimalIsWritten(k, IndexValue(k));
    }
    forall n: nat | n <= 4294967294 && k == DecimalUnits(n) ensures IsIndex(k) {
      DecimalIsWritten(k, n);
    }
  }

  /** Code-unit order is lexicographic. */
  lemma {:induction false} UnitsLeIsLexicographic(a: Str, b: Str)
    ensures UnitsLe(a, b) <==> a <= b || exists i :: 0 <= i < |a| && i < |b| && a[..i] == b[..i] && a[i] < b[i]
    decreases |a|
  {
    if a != [] && b != [] {
      var p, q := a[1..], b[1..];
      UnitsLeIsLexicographic(p, q);
      assert a == [a[0]] + p && b == [b[0]] + q;
      if a[0] == b[0] {
        if i :| 0 <= i < |p| && i < |q| && p[..i] == q[..i] && p[i] < q[i] {
          assert a[..i + 1] == [a[0]] + p[..i] && b[..i + 1] == [b[0]] + q[..i] && a[i + 1] < b[i + 1];
        }
        if i :| 0 <= i < |a| && i < |b| && a[..i] == b[..i] && a[i] < b[i] {
          assert i > 0 && p[..i - 1] == a[..i][1..] && q[..i - 1] == b[..i][1..] && p[i - 1] < q[i - 1];
        }
      } else if a[0] < b[0] {
        assert a[..0] == b[..0];
      } else {
        forall i | 0 < i <= |a| && i <= |b| ensures a[..i] != b[..i] {
          assert a[..i][0] != b[..i][0];
        }
      }
    }
  }

  /**
   * The properties of an object's form are its own, normalized: the array indices come first, by number, and the
   * others follow in the locale's order.
   */
  lemma ObjectFormOrder(fields: seq<Field>, parentKey: Str, localeLe: Order<Str>, i: nat, j: nat)
    requires TotalPreorder(localeLe) && i < j < |fields|
    ensures var v := Stable(Obj(fields), parentKey, localeLe);
            && v.Obj? && multiset(v.fields) == multiset(StableFields(fields, localeLe))
            && |v.fields| == |fields|
            && var k, l := v.fields[i].key, v.fields[j].key;
               && (IsIndex(l) ==> IsIndex(k) && IndexValue(k) <= IndexValue(l))
               && (!IsIndex(k) ==> localeLe(k, l))
  {
    hide IsIndex, IndexValue;
    StableOfObject(fields, parentKey, localeLe);
    ByNormalIsPreorder(localeLe);
    SortFacts(ByNormal(localeLe), StableFields(fields, localeLe));
    var form := Sort(ByNormal(localeLe), StableFields(fields, localeLe));
    assert ByNormal(localeLe)(form[i], form[j]);
  }

  /** A list of texts under `required` has them all, in code-unit order; any other array keeps its order. */
  lemma ArrayFormOrder(items: seq<Json>, parentKey: Str, localeLe: Order<Str>, i: nat, j: nat)
    requires i < j < |items|
    ensures var v := Stable(Arr(items), parentKey, localeLe);
            && v.Arr? && |v.items| == |items|
            && if parentKey == REQUIRED && AllText(items) then
                 && multiset(v.items) == multiset(items)
                 && v.items[i].Text? && v.items[j].Text? && UnitsLe(v.items[i].s, v.items[j].s)
               else v.items[i] == Stable(items[i], [], localeLe) && v.items[j] == Stable(items[j], [], localeLe)
  {
    hide Stable, UnitsLe;
    StableOfArray(items, parentKey, localeLe);
    if parentKey == REQUIRED && AllText(items) {
      ByTextIsPreorder();
      SortFacts(ByText, items);
      var s := Sort(ByText, items);
      AllTextByContents(items, s);
      assert ByText(s[i], s[j]);
    }
  }

  // ---- Equal forms mean equivalent values ----

  lemma SortedTexts(items: seq<Json>, others: seq<Json>)
    ensures Sort(ByText, items) == Sort(ByText, others) ==> multiset(items) == multiset(others)
    ensures multiset(items) == multiset(others) && AllText(items) ==> Sort(ByText, items) == Sort(ByText, others)
    ensures |Sort(ByText, items)| == |items|
    ensures multiset(Sort(ByText, items)) == multiset(items)
  {
    ByTextIsPreorder();
    SortFacts(ByText, items);
    SortFacts(ByText, others);
    var s := Sort(ByText, items);
    if multiset(items) == multiset(others) && AllText(items) {
      SameMembers(s, items);
      forall x, y | x in s && y in s && Tied(ByText, x, y) ensures x == y {
        assert x.Text? && y.Text?;
        UnitsLeFacts(x.s, y.s, []);
      }
      SortedIsUnique(ByText, s, Sort(ByText, others));
    }
  }

  lemma TextIsStable(v: Json, parentKey: Str, localeLe: Order<Str>)
    ensures Stable(v, parentKey, localeLe).Text? <==> v.Text?
    ensures v.Text? ==> Stable(v, parentKey, localeLe) == v
  {
  }

  lemma AllTextIsStable(items: seq<Json>, localeLe: Order<Str>)
    ensures AllText(StableItems(items, localeLe)) <==> AllText(items)
    ensures AllText(items) ==> StableItems(items, localeLe) == items
  {
    var next := StableItems(items, localeLe);
    forall i | 0 <= i < |items|
      ensures next[i].Text? <==> items[i].Text?
      ensures items[i].Text? ==> next[i] == items[i]
    {
      TextIsStable(items[i], [], localeLe);
    }
    assert forall i :: 0 <= i < |items| ==> (next[i].Text? <==> items[i].Text?);
  }

  lemma AllTextByContents(items: seq<Json>, others: seq<Json>)
    requires multiset(items) == multiset(others)
    ensures AllText(items) <==> AllText(others)
  {
    SameMembers(items, others);
    assert AllText(items) <==> forall x :: x in items ==> x.Text?;
    assert AllText(others) <==> forall x :: x in others ==> x.Text?;
  }

  /** The form of an array, case by case. */
  lemma StableOfArray(items: seq<Json>, parentKey: Str, localeLe: Order<Str>)
    ensures Stable(Arr(items), parentKey, localeLe) ==
            Arr(if parentKey == REQUIRED && AllText(items) then Sort(ByText, items) else StableItems(items, localeLe))
  {
    AllTextIsStable(items, localeLe);
  }

  /** Equal array forms under `required` agree on being all text. */
  lemma EqualArraysAgree(items: seq<Json>, others: seq<Json>, parentKey: Str, localeLe: Order<Str>)
    requires Stable(Arr(items), parentKey, localeLe) == Stable(Arr(others), parentKey, localeLe)
    ensures parentKey == REQUIRED ==> (AllText(items) <==> AllText(others))
    ensures parentKey == REQUIRED && AllText(items) ==> multiset(items) == multiset(others)
    ensures !(parentKey == REQUIRED && AllText(items)) ==> StableItems(items, localeLe) == StableItems(others, localeLe)
  {
    StableOfArray(items, parentKey, localeLe);
    StableOfArray(others, parentKey, localeLe);
    hide Stable, AllText, Sort, ByText, StableItems;
    AllTextIsStable(items, localeLe);
    AllTextIsStable(others, localeLe);
    SortedTexts(items, others);
    SortedTexts(others, items);
    AllTextByContents(items, Sort(ByText, items));
    AllTextByContents(others, Sort(ByText, others));
  }

  lemma {:induction false} EqualFormsAreEquivalent(a: Json, b: Json, parentKey: Str, localeLe: Order<Str>)
    requires TotalPreorder(localeLe)
    requires Stable(a, parentKey, localeLe) == Stable(b, parentKey, localeLe)
    ensures Equivalent(a, b, parentKey)
    decreases a, 1
  {
    match a {
      case Arr(items) =>
        EqualArraysAgree(items, b.items, parentKey, localeLe);
        if !(parentKey == REQUIRED && AllText(items)) {
          var next, other := StableItems(items, localeLe), StableItems(b.items, localeLe);
          assert |items| == |next| == |other| == |b.items|;
          forall i | 0 <= i < |items| ensures Equivalent(items[i], b.items[i], []) {
            assert next[i] == other[i];
            EqualFormsAreEquivalent(items[i], b.items[i], [], localeLe);
          }
        }
      case Obj(fields) => EqualObjectsAreEquivalent(fields, b.fields, parentKey, localeLe, a);
      case _ => TextIsStable(b, parentKey, localeLe);
    }
  }

  lemma EqualObjectsSameFields(fields: seq<Field>, others: seq<Field>, parentKey: Str, localeLe: Order<Str>)
    requires TotalPreorder(localeLe)
    requires Stable(Obj(fields), parentKey, localeLe) == Stable(Obj(others), parentKey, localeLe)
    ensures multiset(StableFields(fields, localeLe)) == multiset(StableFields(others, localeLe))
    ensures |fields| == |others|
  {
    hide Stable, Sort, ByNormal;
    StableOfObject(fields, parentKey, localeLe);
    StableOfObject(others, parentKey, localeLe);
    ByNormalIsPreorder(localeLe);
    SortFacts(ByNormal(localeLe), StableFields(fields, localeLe));
    SortFacts(ByNormal(localeLe), StableFields(others, localeLe));
  }

  lemma {:induction false} EqualObjectsAreEquivalent(
      fields: seq<Field>, others: seq<Field>, parentKey: Str, localeLe: Order<Str>, a: Json)
    requires TotalPreorder(localeLe) && a == Obj(fields)
    requires Stable(a, parentKey, localeLe) == Stable(Obj(others), parentKey, localeLe)
    ensures Equivalent(a, Obj(others), parentKey)
    decreases a, 0
  {
    var next, other := StableFields(fields, localeLe), StableFields(others, localeLe);
    EqualObjectsSameFields(fields, others, parentKey, localeLe);
    SameMembers(next, other);
    hide Stable;
    forall i | 0 <= i < |fields|
      ensures exists j :: 0 <= j < |others| && others[j].key == fields[i].key &&
                          Equivalent(fields[i].value, others[j].value, fields[i].key)
    {
      assert next[i] in other;
      var j :| 0 <= j < |other| && other[j] == next[i];
      EqualFormsAreEquivalent(fields[i].value, others[j].value, fields[i].key, localeLe);
    }
  }

  // ---- Equivalent values have equal forms, unless keys tie ----

  lemma SameContents(s: seq<Field>, t: seq<Field>)
    requires UniqueKeys(s) && |s| == |t| && forall i :: 0 <= i < |s| ==> s[i] in t
    ensures multiset(s) == multiset(t)
  {
    ContainedContents(s, t);
    assert |multiset(t) - multiset(s)| == 0;
  }

  lemma {:induction false} ContainedContents(s: seq<Field>, t: seq<Field>)
    requires UniqueKeys(s) && forall i :: 0 <= i < |s| ==> s[i] in t
    ensures multiset(s) <= multiset(t)
    decreases |s|
  {
    forall f ensures multiset(s)[f] <= multiset(t)[f] {
      if f in s {
        AtMostOnce(s, f);
        assert f in t && f in multiset(t);
      }
    }
  }

  lemma {:induction false} AtMostOnce(s: seq<Field>, f: Field)
    requires UniqueKeys(s)
    ensures multiset(s)[f] <= 1
    decreases |s|
  {
    if s != [] {
      AtMostOnce(s[1..], f);
      assert s == [s[0]] + s[1..];
      if s[0] == f {
        assert f !in s[1..];
      }
    }
  }

  lemma {:induction false} EquivalentFormsAreEqual(a: Json, b: Json, parentKey: Str, localeLe: Order<Str>)
    requires TotalPreorder(localeLe) && WellFormed(a) && WellFormed(b)
    requires Equivalent(a, b, parentKey) && TieFree(a, localeLe)
    ensures Stable(a, parentKey, localeLe) == Stable(b, parentKey, localeLe)
    decreases a, 1
  {
    match a {
      case Arr(items) =>
        StableOfArray(items, parentKey, localeLe);
        StableOfArray(b.items, parentKey, localeLe);
        if parentKey == REQUIRED && AllText(items) {
          SortedTexts(items, b.items);
        } else {
          forall i | 0 <= i < |items| ensures Stable(items[i], [], localeLe) == Stable(b.items[i], [], localeLe) {
            EquivalentFormsAreEqual(items[i], b.items[i], [], localeLe);
          }
          assert StableItems(items, localeLe) == StableItems(b.items, localeLe);
          AllTextIsStable(items, localeLe);
          AllTextIsStable(b.items, localeLe);
        }
      case Obj(fields) => EquivalentObjectsAreEqual(fields, b.fields, parentKey, localeLe, a);
      case _ =>
    }
  }

  lemma NormalTiesAreEqual(fields: seq<Field>, localeLe: Order<Str>, x: Field, y: Field)
    requires UniqueKeys(fields) && x in fields && y in fields && Tied(ByNormal(localeLe), x, y)
    requires forall i, j :: 0 <= i < j < |fields| ==> !KeysTie(fields[i].key, fields[j].key, localeLe)
    ensures x == y
  {
    hide ByNormal;
    var i :| 0 <= i < |fields| && fields[i] == x;
    var j :| 0 <= j < |fields| && fields[j] == y;
    if i != j {
      TiesAreKeyTies(x, y, localeLe);
    }
  }

  lemma {:induction false} EquivalentObjectsAreEqual(
      fields: seq<Field>, others: seq<Field>, parentKey: Str, localeLe: Order<Str>, a: Json)
    requires TotalPreorder(localeLe) && a == Obj(fields) && WellFormed(a) && WellFormed(Obj(others))
    requires Equivalent(a, Obj(others), parentKey) && TieFree(a, localeLe)
    ensures Stable(a, parentKey, localeLe) == Stable(Obj(others), parentKey, localeLe)
    decreases a, 0
  {
    var le, next, other := ByNormal(localeLe), StableFields(fields, localeLe), StableFields(others, localeLe);
    forall i | 0 <= i < |next| ensures next[i] in other {
      var j :| 0 <= j < |others| && others[j].key == fields[i].key &&
               Equivalent(fields[i].value, others[j].value, fields[i].key);
      EquivalentFormsAreEqual(fields[i].value, others[j].value, fields[i].key, localeLe);
      assert other[j] == next[i];
    }
    SameContents(next, other);
    StableOfObject(fields, parentKey, localeLe);
    StableOfObject(others, parentKey, localeLe);
    SortedFieldsAgree(next, other, localeLe);
  }

  lemma SortedFieldsAgree(next: seq<Field>, other: seq<Field>, localeLe: Order<Str>)
    requires TotalPreorder(localeLe) && UniqueKeys(next) && multiset(next) == multiset(other)
    requires forall i, j :: 0 <= i < j < |next| ==> !KeysTie(next[i].key, next[j].key, localeLe)
    ensures Sort(ByNormal(localeLe), next) == Sort(ByNormal(localeLe), other)
  {
    var le := ByNormal(localeLe);
    ByNormalIsPreorder(localeLe);
    SortFacts(le, next);
    SortFacts(le, other);
    var s := Sort(le, next);
    SameMembers(s, next);
    forall x, y | x in s && y in s && Tied(le, x, y) ensures x == y {
      NormalTiesAreEqual(next, localeLe, x, y);
    }
    SortedIsUnique(le, s, Sort(le, other));
  }

  // ---- The form of a form ----

  /** Normalizing twice is normalizing once, with or without ties. */
  lemma {:induction false} StableIsIdempotent(v: Json, parentKey: Str, localeLe: Order<Str>)
    requires TotalPreorder(localeLe)
    ensures Stable(Stable(v, parentKey, localeLe), parentKey, localeLe) == Stable(v, parentKey, localeLe)
    decreases v, 1
  {
    match v {
      case Arr(items) =>
        var next := StableItems(items, localeLe);
        forall i | 0 <= i < |items| ensures Stable(next[i], [], localeLe) == next[i] {
          StableIsIdempotent(items[i], [], localeLe);
        }
        FormOfArrayForm(items, parentKey, localeLe);
      case Obj(fields) =>
        var next := StableFields(fields, localeLe);
        forall i | 0 <= i < |fields| ensures StableField(next[i], localeLe) == next[i] {
          StableIsIdempotent(fields[i].value, fields[i].key, localeLe);
        }
        FormOfObjectForm(fields, parentKey, localeLe);
      case _ =>
    }
  }

  lemma FormOfArrayForm(items: seq<Json>, parentKey: Str, localeLe: Order<Str>)
    requires var next := StableItems(items, localeLe);
             forall i :: 0 <= i < |next| ==> Stable(next[i], [], localeLe) == next[i]
    ensures var form := Stable(Arr(items), parentKey, localeLe); Stable(form, parentKey, localeLe) == form
  {
    hide Stable;
    var next, sorted := StableItems(items, localeLe), Sort(ByText, items);
    StableOfArray(items, parentKey, localeLe);
    AllTextIsStable(items, localeLe);
    if parentKey == REQUIRED && AllText(items) {
      SortedTexts(items, items);
      AllTextByContents(items, sorted);
      StableOfArray(sorted, parentKey, localeLe);
      ByTextIsPreorder();
      SortFacts(ByText, items);
      SortOfSorted(ByText, sorted);
    } else {
      StableOfArray(next, parentKey, localeLe);
      assert StableItems(next, localeLe) == next;
    }
  }

  lemma FormOfObjectForm(fields: seq<Field>, parentKey: Str, localeLe: Order<Str>)
    requires TotalPreorder(localeLe)
    requires var next := StableFields(fields, localeLe);
             forall i :: 0 <= i < |next| ==> StableField(next[i], localeLe) == next[i]
    ensures var form := Stable(Obj(fields), parentKey, localeLe); Stable(form, parentKey, localeLe) == form
  {
    hide Stable, StableField, ByNormal;
    var le, next := ByNormal(localeLe), StableFields(fields, localeLe);
    var sorted := Sort(le, next);
    StableOfObject(fields, parentKey, localeLe);
    StableOfObject(sorted, parentKey, localeLe);
    ByNormalIsPreorder(localeLe);
    SortFacts(le, next);
    SameMembers(sorted, next);
    forall i | 0 <= i < |sorted| ensures StableField(sorted[i], localeLe) == sorted[i] {
      assert sorted[i] in next;
    }
    assert StableFields(sorted, localeLe) == sorted;
    SortOfSorted(le, sorted);
  }

  // ---- Tied keys do make equivalent values differ ----

  lemma EquivalentToItself(v: Json, parentKey: Str)
    ensures Equivalent(v, v, parentKey)
  {
    EqualFormsAreEquivalent(v, v, parentKey, (k: Str, l: Str) => true);
  }

  lemma {:induction false} FirstOfTwo(s: seq<Field>, i: nat, j: nat)
    requires UniqueKeys(s) && i < j < |s|
    ensures FirstOf(s, s[i], s[j]) == [s[i]] && FirstOf(s, s[j], s[i]) == [s[i]]
    decreases i
  {
    if i > 0 {
      assert s[0].key != s[i].key && s[0].key != s[j].key;
      FirstOfTwo(s[1..], i - 1, j - 1);
    }
  }

  /** The object with two of its properties exchanged. */
  function Swapped(fields: seq<Field>, i: nat, j: nat): seq<Field>
    requires i < j < |fields|
  {
    fields[i := fields[j]][j := fields[i]]
  }

  lemma SwappedIsWellFormed(fields: seq<Field>, i: nat, j: nat, localeLe: Order<Str>)
    requires WellFormed(Obj(fields)) && i < j < |fields| && KeysTie(fields[i].key, fields[j].key, localeLe)
    ensures WellFormed(Obj(Swapped(fields, i, j)))
  {
    hide IsIndex, IndexValue;
    var swapped := Swapped(fields, i, j);
    forall k, l | 0 <= k < l < |swapped|
      ensures swapped[k].key != swapped[l].key && ByEnumeration(swapped[k], swapped[l])
    {
      assert ByEnumeration(fields[i], fields[j]) && ByEnumeration(fields[j], fields[i]);
      var k', l' := if k == i then j else if k == j then i else k, if l == i then j else if l == j then i else l;
      assert swapped[k] == fields[k'] && swapped[l] == fields[l'] && k' != l';
    }
  }

  lemma SwappedIsEquivalent(fields: seq<Field>, i: nat, j: nat, parentKey: Str)
    requires i < j < |fields|
    ensures Equivalent(Obj(fields), Obj(Swapped(fields, i, j)), parentKey)
  {
    var swapped := Swapped(fields, i, j);
    forall k | 0 <= k < |fields|
      ensures exists l :: 0 <= l < |swapped| && swapped[l].key == fields[k].key &&
                          Equivalent(fields[k].value, swapped[l].value, fields[k].key)
    {
      EquivalentToItself(fields[k].value, fields[k].key);
      assert swapped[if k == i then j else if k == j then i else k] == fields[k];
    }
  }

  /** Exchanging two tied properties gives an equivalent object with another form. */
  lemma SwappedDiffers(fields: seq<Field>, i: nat, j: nat, parentKey: Str, localeLe: Order<Str>)
    requires TotalPreorder(localeLe) && WellFormed(Obj(fields))
    requires i < j < |fields| && KeysTie(fields[i].key, fields[j].key, localeLe)
    ensures var b := Obj(Swapped(fields, i, j));
            && WellFormed(b) && Equivalent(Obj(fields), b, parentKey)
            && Stable(b, parentKey, localeLe) != Stable(Obj(fields), parentKey, localeLe)
  {
    hide Stable, StableField, ByNormal, KeysTie, ByEnumeration, Equivalent;
    var swapped := Swapped(fields, i, j);
    SwappedIsWellFormed(fields, i, j, localeLe);
    SwappedIsEquivalent(fields, i, j, parentKey);
    KeptKeys(fields, localeLe);
    KeptKeys(swapped, localeLe);
    var next, other := StableFields(fields, localeLe), StableFields(swapped, localeLe);
    assert other[i] == next[j] && other[j] == next[i];
    TiedSwapSortsApart(next, other, i, j, localeLe);
    StableOfObject(fields, parentKey, localeLe);
    StableOfObject(swapped, parentKey, localeLe);
  }

  /** Two lists with unique keys that have two tied properties the other way round sort differently. */
  lemma TiedSwapSortsApart(next: seq<Field>, other: seq<Field>, i: nat, j: nat, localeLe: Order<Str>)
    requires TotalPreorder(localeLe) && UniqueKeys(next) && UniqueKeys(other)
    requires i < j < |next| == |other| && other[i] == next[j] && other[j] == next[i]
    requires KeysTie(next[i].key, next[j].key, localeLe)
    ensures Sort(ByNormal(localeLe), next) != Sort(ByNormal(localeLe), other)
  {
    hide ByNormal, KeysTie, Sort, UniqueKeys, TotalPreorder;
    var le := ByNormal(localeLe);
    DifferentKeys(next, i, j);
    TiesAreKeyTies(next[i], next[j], localeLe);
    ByNormalIsPreorder(localeLe);
    SortIsStable(le, next, next[i], next[j]);
    SortIsStable(le, other, next[i], next[j]);
    FirstOfTwo(next, i, j);
    FirstOfTwo(other, i, j);
  }

  lemma DifferentKeys(s: seq<Field>, i: nat, j: nat)
    requires UniqueKeys(s) && i < j < |s|
    ensures s[i].key != s[j].key
  {
  }

  lemma KeptKeys(fields: seq<Field>, localeLe: Order<Str>)
    ensures var next := StableFields(fields, localeLe);
            && (forall i :: 0 <= i < |fields| ==> next[i].key == fields[i].key)
            && (UniqueKeys(fields) ==> UniqueKeys(next))
  {
  }

  /** Replacing one property's value by an equivalent one with another form changes the object's form. */
  lemma FieldDiffers(fields: seq<Field>, i: nat, w: Json, parentKey: Str, localeLe: Order<Str>)
    requires TotalPreorder(localeLe) && WellFormed(Obj(fields)) && i < |fields| && WellFormed(w)
    requires Equivalent(fields[i].value, w, fields[i].key)
    requires Stable(w, fields[i].key, localeLe) != Stable(fields[i].value, fields[i].key, localeLe)
    ensures var b := Obj(fields[i := Field(fields[i].key, w)]);
            && WellFormed(b) && Equivalent(Obj(fields), b, parentKey)
            && Stable(b, parentKey, localeLe) != Stable(Obj(fields), parentKey, localeLe)
  {
    hide Stable, ByNormal, ByEnumeration, Equivalent, Sort;
    var others := fields[i := Field(fields[i].key, w)];
    ReplacedIsWellFormed(fields, i, w);
    FieldwiseEquivalent(fields, others, parentKey, i);
    var le, next, other := ByNormal(localeLe), StableFields(fields, localeLe), StableFields(others, localeLe);
    KeptKeys(fields, localeLe);
    StableOfObject(fields, parentKey, localeLe);
    StableOfObject(others, parentKey, localeLe);
    DifferentContents(next, other, i);
    ByNormalIsPreorder(localeLe);
    SortFacts(le, next);
    SortFacts(le, other);
  }

  lemma ReplacedIsWellFormed(fields: seq<Field>, i: nat, w: Json)
    requires WellFormed(Obj(fields)) && i < |fields| && WellFormed(w)
    ensures WellFormed(Obj(fields[i := Field(fields[i].key, w)]))
  {
    hide ByEnumeration;
    var others := fields[i := Field(fields[i].key, w)];
    forall k, l | 0 <= k < l < |others| ensures ByEnumeration(others[k], others[l]) {
      assert ByEnumeration(fields[k], fields[l]);
      SameKeysSameOrder(fields[k], fields[l], others[k], others[l]);
    }
  }

  lemma DifferentContents(next: seq<Field>, other: seq<Field>, i: nat)
    requires UniqueKeys(next) && i < |next| == |other| && other[i].key == next[i].key && other[i] != next[i]
    ensures multiset(next) != multiset(other)
  {
    assert other[i] in multiset(other);
    forall k | 0 <= k < |next| ensures next[k] != other[i] {
      assert k != i ==> next[k].key != next[i].key;
    }
    assert other[i] !in next;
  }

  lemma FieldwiseEquivalent(fields: seq<Field>, others: seq<Field>, parentKey: Str, i: nat)
    requires i < |fields| == |others| && others == fields[i := Field(fields[i].key, others[i].value)]
    requires Equivalent(fields[i].value, others[i].value, fields[i].key)
    ensures Equivalent(Obj(fields), Obj(others), parentKey)
  {
    forall k | 0 <= k < |fields|
      ensures exists l :: 0 <= l < |others| && others[l].key == fields[k].key &&
                          Equivalent(fields[k].value, others[l].value, fields[k].key)
    {
      EquivalentToItself(fields[k].value, fields[k].key);
      assert others[k].key == fields[k].key;
    }
  }

  lemma SameKeysSameOrder(f: Field, g: Field, f': Field, g': Field)
    requires f'.key == f.key && g'.key == g.key && ByEnumeration(f, g)
    ensures ByEnumeration(f', g')
  {
  }

  lemma EquivalentTextsAreEqual(v: Json, w: Json, localeLe: Order<Str>)
    requires Equivalent(v, w, []) && (v.Text? || w.Text?)
    ensures Stable(v, [], localeLe) == Stable(w, [], localeLe)
  {
  }

  lemma ItemwiseEquivalent(items: seq<Json>, i: nat, w: Json, parentKey: Str)
    requires i < |items| && Equivalent(items[i], w, []) && !items[i].Text? && !w.Text?
    requires WellFormed(Arr(items)) && WellFormed(w)
    ensures WellFormed(Arr(items[i := w])) && Equivalent(Arr(items), Arr(items[i := w]), parentKey)
  {
    var others := items[i := w];
    assert others[i] == w;
    forall k | 0 <= k < |items| ensures Equivalent(items[k], others[k], []) {
      EquivalentToItself(items[k], []);
    }
  }

  lemma ItemDiffers(items: seq<Json>, i: nat, w: Json, parentKey: Str, localeLe: Order<Str>)
    requires WellFormed(Arr(items)) && i < |items| && WellFormed(w) && Equivalent(items[i], w, [])
    requires Stable(w, [], localeLe) != Stable(items[i], [], localeLe)
    ensures var b := Arr(items[i := w]);
            && WellFormed(b) && Equivalent(Arr(items), b, parentKey)
            && Stable(b, parentKey, localeLe) != Stable(Arr(items), parentKey, localeLe)
  {
    hide Stable, Equivalent, WellFormed, Sort;
    var others := items[i := w];
    if items[i].Text? || w.Text? {
      EquivalentTextsAreEqual(items[i], w, localeLe);
      assert false;
    }
    ItemwiseEquivalent(items, i, w, parentKey);
    assert others[i] == w;
    StableOfArray(items, parentKey, localeLe);
    StableOfArray(others, parentKey, localeLe);
    assert StableItems(others, localeLe)[i] != StableItems(items, localeLe)[i];
  }

  /** A value with tied keys anywhere has an equivalent value with another form. */
  lemma {:induction false} TiesAreVisible(a: Json, parentKey: Str, localeLe: Order<Str>) returns (b: Json)
    requires TotalPreorder(localeLe) && WellFormed(a) && !TieFree(a, localeLe)
    ensures WellFormed(b) && Equivalent(a, b, parentKey)
    ensures Stable(b, parentKey, localeLe) != Stable(a, parentKey, localeLe)
    decreases a
  {
    hide Stable, Equivalent, KeysTie;
    match a {
      case Arr(items) =>
        var i :| 0 <= i < |items| && !TieFree(items[i], localeLe);
        var w := TiesAreVisible(items[i], [], localeLe);
        ItemDiffers(items, i, w, parentKey, localeLe);
        b := Arr(items[i := w]);
      case Obj(fields) =>
        if i, j :| 0 <= i < j < |fields| && KeysTie(fields[i].key, fields[j].key, localeLe) {
          SwappedDiffers(fields, i, j, parentKey, localeLe);
          b := Obj(Swapped(fields, i, j));
        } else {
          var i :| 0 <= i < |fields| && !TieFree(fields[i].value, localeLe);
          var w := TiesAreVisible(fields[i].value, fields[i].key, localeLe);
          FieldDiffers(fields, i, w, parentKey, localeLe);
          b := Obj(fields[i := Field(fields[i].key, w)]);
        }
    }
  }

  /**
   * The form decides equivalence with `a` exactly when no object in `a` has two different keys that the locale
   * comparison ties: then equal forms and equivalence are the same thing, and otherwise some value equivalent
   * to `a` has another form.
   */
  lemma CanonicalExactlyWithoutTies(a: Json, parentKey: Str, localeLe: Order<Str>)
    requires TotalPreorder(localeLe) && WellFormed(a)
    ensures TieFree(a, localeLe) <==>
            forall b :: WellFormed(b) ==>
              (Equivalent(a, b, parentKey) <==> Stable(a, parentKey, localeLe) == Stable(b, parentKey, localeLe))
  {
    hide Stable, Equivalent, TieFree, WellFormed;
    if TieFree(a, localeLe) {
      forall b | WellFormed(b)
        ensures Equivalent(a, b, parentKey) <==> Stable(a, parentKey, localeLe) == Stable(b, parentKey, localeLe)
      {
        if Equivalent(a, b, parentKey) {
          EquivalentFormsAreEqual(a, b, parentKey, localeLe);
        } else if Stable(a, parentKey, localeLe) == Stable(b, parentKey, localeLe) {
          EqualFormsAreEquivalent(a, b, parentKey, localeLe);
        }
      }
    } else {
      var b := TiesAreVisible(a, parentKey, localeLe);
    }
  }
}
