/** Stable sorting by a total preorder: order, contents, stability, uniqueness, and sorting twice. */
module StableSort {

  /** `le(x, y)` says that the comparator does not put `x` after `y`. */
  type Order<!T> = (T, T) -> bool

  ghost predicate TotalPreorder<T(!new)>(le: Order<T>) {
    && (forall x, y :: le(x, y) || le(y, x))
    && (forall x, y, z :: le(x, y) && le(y, z) ==> le(x, z))
  }

  predicate Tied<T>(le: Order<T>, x: T, y: T) {
    le(x, y) && le(y, x)
  }

  function Insert<T>(le: Order<T>, x: T, s: seq<T>): seq<T> {
    if s == [] || le(x, s[0]) then [x] + s else [s[0]] + Insert(le, x, s[1..])
  }

  /** Among elements that tie, the earlier one stays in front. */
  function Sort<T>(le: Order<T>, s: seq<T>): seq<T> {
    if s == [] then [] else Insert(le, s[0], Sort(le, s[1..]))
  }

  predicate Sorted<T>(le: Order<T>, s: seq<T>) {
    forall i, j :: 0 <= i < j < |s| ==> le(s[i], s[j])
  }

  lemma {:induction false} InsertFacts<T(!new)>(le: Order<T>, x: T, s: seq<T>)
    requires TotalPreorder(le) && Sorted(le, s)
    ensures Sorted(le, Insert(le, x, s))
    ensures multiset(Insert(le, x, s)) == multiset(s) + multiset{x}
    ensures |Insert(le, x, s)| == |s| + 1
    decreases |s|
  {
    if s != [] {
      assert s == [s[0]] + s[1..];
      if !le(x, s[0]) {
        InsertFacts(le, x, s[1..]);
        var rest := Insert(le, x, s[1..]);
        forall j | 0 <= j < |rest| ensures le(s[0], rest[j]) {
          assert rest[j] in multiset(rest);
          assert rest[j] == x || rest[j] in s[1..];
        }
      }
    }
  }

  lemma {:induction false} SortFacts<T(!new)>(le: Order<T>, s: seq<T>)
    requires TotalPreorder(le)
    ensures Sorted(le, Sort(le, s))
    ensures multiset(Sort(le, s)) == multiset(s)
    ensures |Sort(le, s)| == |s|
    decreases |s|
  {
    if s != [] {
      SortFacts(le, s[1..]);
      InsertFacts(le, s[0], Sort(le, s[1..]));
      assert s == [s[0]] + s[1..];
    }
  }

  lemma {:induction false} SortOfSorted<T(!new)>(le: Order<T>, s: seq<T>)
    requires Sorted(le, s)
    ensures Sort(le, s) == s
    decreases |s|
  {
    if s != [] {
      SortOfSorted(le, s[1..]);
    }
  }

  lemma SameMembers<T(!new)>(s: seq<T>, t: seq<T>)
    requires multiset(s) == multiset(t)
    ensures forall x :: x in s <==> x in t
  {
    forall x ensures x in s <==> x in t {
      assert x in s <==> x in multiset(s);
      assert x in t <==> x in multiset(t);
    }
  }

  lemma HeadIsLeast<T(!new)>(le: Order<T>, s: seq<T>, x: T)
    requires TotalPreorder(le) && Sorted(le, s) && x in s
    ensures le(s[0], x)
  {
    assert le(x, x);
  }

  lemma TailContents<T(!new)>(s: seq<T>)
    requires s != []
    ensures multiset(s[1..]) == multiset(s) - multiset{s[0]}
  {
    assert s == [s[0]] + s[1..];
  }

  /** Two sorted arrangements of the same elements are one when only equal elements tie. */
  lemma {:induction false} SortedIsUnique<T(!new)>(le: Order<T>, s: seq<T>, t: seq<T>)
    requires TotalPreorder(le) && Sorted(le, s) && Sorted(le, t) && multiset(s) == multiset(t)
    requires forall x, y :: x in s && y in s && Tied(le, x, y) ==> x == y
    ensures s == t
    decreases |s|
  {
    assert |multiset(s)| == |s| && |multiset(t)| == |t|;
    if s != [] {
      SameMembers(s, t);
      assert s[0] in t && t[0] in s;
      HeadIsLeast(le, s, t[0]);
      HeadIsLeast(le, t, s[0]);
      assert Tied(le, s[0], t[0]);
      TailContents(s);
      TailContents(t);
      SortedIsUnique(le, s[1..], t[1..]);
    }
  }

  // ---- Sorting by one order and then by another ----

  /** First by `major`, then by `minor`. */
  function Combined<T>(major: Order<T>, minor: Order<T>): Order<T> {
    (x, y) => major(x, y) && (major(y, x) ==> minor(x, y))
  }

  lemma CombinedIsPreorder<T(!new)>(major: Order<T>, minor: Order<T>)
    requires TotalPreorder(major) && TotalPreorder(minor)
    ensures TotalPreorder(Combined(major, minor))
  {
    var le := Combined(major, minor);
    forall x, y, z | le(x, y) && le(y, z) ensures le(x, z) {
      assert major(x, z);
      if major(z, x) {
        assert major(z, y) && major(y, x);
      }
    }
  }

  /** An insertion by the major order commutes with a later one by the combined order. */
  lemma {:induction false} InsertsCommute<T(!new)>(major: Order<T>, minor: Order<T>, x: T, y: T, s: seq<T>)
    requires TotalPreorder(major) && TotalPreorder(minor) && !minor(x, y)
    ensures Insert(major, y, Insert(Combined(major, minor), x, s)) ==
            Insert(Combined(major, minor), x, Insert(major, y, s))
    decreases |s|
  {
    var le := Combined(major, minor);
    assert le(x, y) <==> !major(y, x);
    if s != [] {
      var z := s[0];
      if le(x, z) {
        assert ([x] + s)[1..] == s;
      } else if major(y, z) {
        assert !le(x, y);
        assert ([y] + s)[1..] == s && ([z] + Insert(le, x, s[1..]))[1..] == Insert(le, x, s[1..]);
      } else {
        InsertsCommute(major, minor, x, y, s[1..]);
        assert ([z] + Insert(le, x, s[1..]))[1..] == Insert(le, x, s[1..]);
        assert ([z] + Insert(major, y, s[1..]))[1..] == Insert(major, y, s[1..]);
      }
    }
  }

  lemma {:induction false} InsertLeast<T(!new)>(major: Order<T>, minor: Order<T>, x: T, s: seq<T>)
    requires forall i :: 0 <= i < |s| ==> minor(x, s[i])
    ensures Insert(major, x, s) == Insert(Combined(major, minor), x, s)
    decreases |s|
  {
    if s != [] {
      InsertLeast(major, minor, x, s[1..]);
    }
  }

  lemma {:induction false} SortAfterInsert<T(!new)>(major: Order<T>, minor: Order<T>, x: T, s: seq<T>)
    requires TotalPreorder(major) && TotalPreorder(minor) && Sorted(minor, s)
    ensures Sort(major, Insert(minor, x, s)) == Insert(Combined(major, minor), x, Sort(major, s))
    decreases |s|
  {
    if s == [] || minor(x, s[0]) {
      assert ([x] + s)[1..] == s;
      SortFacts(major, s);
      SameMembers(Sort(major, s), s);
      forall i | 0 <= i < |Sort(major, s)| ensures minor(x, Sort(major, s)[i]) {
        assert Sort(major, s)[i] in s;
      }
      InsertLeast(major, minor, x, Sort(major, s));
    } else {
      var inserted := Insert(minor, x, s);
      assert inserted[0] == s[0] && inserted[1..] == Insert(minor, x, s[1..]);
      SortAfterInsert(major, minor, x, s[1..]);
      InsertsCommute(major, minor, x, s[0], Sort(major, s[1..]));
    }
  }

  /** A stable sort by `minor` and then one by `major` is one stable sort by the combined order. */
  lemma {:induction false} TwoPasses<T(!new)>(major: Order<T>, minor: Order<T>, s: seq<T>)
    requires TotalPreorder(major) && TotalPreorder(minor)
    ensures Sort(major, Sort(minor, s)) == Sort(Combined(major, minor), s)
    decreases |s|
  {
    if s != [] {
      TwoPasses(major, minor, s[1..]);
      SortFacts(minor, s[1..]);
      SortAfterInsert(major, minor, s[0], Sort(minor, s[1..]));
    }
  }

  // ---- Stability ----

  /** Which of two elements comes first. */
  function FirstOf<T(==)>(s: seq<T>, x: T, y: T): seq<T> {
    if s == [] then [] else if s[0] == x || s[0] == y then [s[0]] else FirstOf(s[1..], x, y)
  }

  lemma {:induction false} InsertIsStable<T(!new)>(le: Order<T>, z: T, s: seq<T>, x: T, y: T)
    requires TotalPreorder(le) && Tied(le, x, y)
    ensures FirstOf(Insert(le, z, s), x, y) == FirstOf([z] + s, x, y)
    decreases |s|
  {
    assert le(z, z);
    assert ([z] + s)[1..] == s;
    if s != [] && !le(z, s[0]) {
      InsertIsStable(le, z, s[1..], x, y);
      assert ([z] + s[1..])[1..] == s[1..];
      assert ([s[0]] + Insert(le, z, s[1..]))[1..] == Insert(le, z, s[1..]);
    }
  }

  /** Sorting keeps the order of any two elements that tie. */
  lemma {:induction false} SortIsStable<T(!new)>(le: Order<T>, s: seq<T>, x: T, y: T)
    requires TotalPreorder(le) && Tied(le, x, y)
    ensures FirstOf(Sort(le, s), x, y) == FirstOf(s, x, y)
    decreases |s|
  {
    if s != [] {
      SortIsStable(le, s[1..], x, y);
      InsertIsStable(le, s[0], Sort(le, s[1..]), x, y);
      var rest := Sort(le, s[1..]);
      assert ([s[0]] + rest)[1..] == rest;
    }
  }

  /** The elements that tie with `x`, in their order, repeated ones as often as they occur. */
  function TiedWith<T>(le: Order<T>, s: seq<T>, x: T): seq<T> {
    if s == [] then [] else (if Tied(le, x, s[0]) then [s[0]] else []) + TiedWith(le, s[1..], x)
  }

  lemma {:induction false} InsertKeepsTies<T(!new)>(le: Order<T>, z: T, s: seq<T>, x: T)
    requires TotalPreorder(le)
    ensures TiedWith(le, Insert(le, z, s), x) == TiedWith(le, [z] + s, x)
    decreases |s|
  {
    assert ([z] + s)[1..] == s;
    if s != [] && !le(z, s[0]) {
      InsertKeepsTies(le, z, s[1..], x);
      assert ([z] + s[1..])[1..] == s[1..];
      assert ([s[0]] + Insert(le, z, s[1..]))[1..] == Insert(le, z, s[1..]);
      assert !(Tied(le, x, z) && Tied(le, x, s[0]));
    }
  }

  /** Sorting keeps every run of mutually tied elements whole and in its order. */
  lemma {:induction false} SortKeepsTies<T(!new)>(le: Order<T>, s: seq<T>, x: T)
    requires TotalPreorder(le)
    ensures TiedWith(le, Sort(le, s), x) == TiedWith(le, s, x)
    decreases |s|
  {
    if s != [] {
      SortKeepsTies(le, s[1..], x);
      InsertKeepsTies(le, s[0], Sort(le, s[1..]), x);
      var rest := Sort(le, s[1..]);
      assert ([s[0]] + rest)[1..] == rest;
    }
  }
}
