/** The streaming, bounded top-N of a paged bucket listing. */
module TopFiles {
  import opened Common
  import opened Paging
  import opened StableSort

  datatype File = File(name: string, size: nat)

  /** `b.size - a.size <= 0`: larger files first. */
  predicate BySizeDescending(a: File, b: File) {
    a.size >= b.size
  }

  /** The reference: the first `n` of the stable descending sort. */
  function TopN(n: nat, files: seq<File>): seq<File> {
    Take(n, Sort(BySizeDescending, files))
  }

  // ---- Adding one file to a sorted list ----

  /** `x` behind everything that does not sort after it. */
  function Place<T>(le: Order<T>, s: seq<T>, x: T): seq<T> {
    if s != [] && le(s[0], x) then [s[0]] + Place(le, s[1..], x) else [x] + s
  }

  lemma {:induction false} InsertPlaceCommute<T(!new)>(le: Order<T>, a: T, s: seq<T>, x: T)
    requires TotalPreorder(le)
    ensures Insert(le, a, Place(le, s, x)) == Place(le, Insert(le, a, s), x)
    decreases |s|
  {
    if s != [] {
      var z, rest := s[0], s[1..];
      if le(z, x) {
        InsertPlaceCommute(le, a, rest, x);
        assert ([z] + Place(le, rest, x))[1..] == Place(le, rest, x);
        assert ([z] + Insert(le, a, rest))[1..] == Insert(le, a, rest);
        assert ([a] + s)[1..] == s;
      } else {
        assert ([x] + s)[1..] == s && ([a] + s)[1..] == s;
      }
    }
  }

  /** Sorting a list with one more element at its end places that element in the sorted list. */
  lemma {:induction false} SortAppend<T(!new)>(le: Order<T>, s: seq<T>, x: T)
    requires TotalPreorder(le)
    ensures Sort(le, s + [x]) == Place(le, Sort(le, s), x)
    decreases |s|
  {
    if s == [] {
      assert s + [x] == [x] && [x][1..] == [];
    } else {
      assert (s + [x])[1..] == s[1..] + [x];
      SortAppend(le, s[1..], x);
      InsertPlaceCommute(le, s[0], Sort(le, s[1..]), x);
    }
  }

  lemma {:induction false} TakeOfPlace<T(!new)>(le: Order<T>, s: seq<T>, x: T, n: nat)
    ensures Take(n, Place(le, s, x)) == Take(n, Place(le, Take(n, s), x))
    decreases |s|
  {
    if s != [] && n > 0 && le(s[0], x) {
      TakeOfPlace(le, s[1..], x, n - 1);
      assert Take(n, s)[1..] == Take(n - 1, s[1..]);
      assert Take(n, Place(le, s, x)) == [s[0]] + Take(n - 1, Place(le, s[1..], x));
      assert Take(n, Place(le, Take(n, s), x)) == [s[0]] + Take(n - 1, Place(le, Take(n - 1, s[1..]), x));
    }
  }

  lemma {:induction false} PlaceLast<T(!new)>(le: Order<T>, s: seq<T>, x: T)
    requires forall i :: 0 <= i < |s| ==> le(s[i], x)
    ensures Place(le, s, x) == s + [x]
    decreases |s|
  {
    if s != [] {
      PlaceLast(le, s[1..], x);
    }
  }

  lemma {:induction false} PlaceLength<T(!new)>(le: Order<T>, s: seq<T>, x: T)
    ensures |Place(le, s, x)| == |s| + 1
    decreases |s|
  {
    if s != [] {
      PlaceLength(le, s[1..], x);
    }
  }

  lemma BySizeIsPreorder()
    ensures TotalPreorder(BySizeDescending)
  {
  }

  lemma TopNFacts(n: nat, files: seq<File>)
    ensures Sorted(BySizeDescending, TopN(n, files))
    ensures |TopN(n, files)| == if |files| <= n then |files| else n
    ensures Sort(BySizeDescending, TopN(n, files)) == TopN(n, files)
  {
    BySizeIsPreorder();
    SortFacts(BySizeDescending, files);
    SortOfSorted(BySizeDescending, TopN(n, files));
  }

  /** A file no larger than the smallest of a full top list changes nothing. */
  lemma SkipFile(n: nat, seen: seq<File>, x: File)
    requires n >= 1
    requires var top := TopN(n, seen); |top| == n && x.size <= top[n - 1].size
    ensures TopN(n, seen + [x]) == TopN(n, seen)
  {
    var top := TopN(n, seen);
    BySizeIsPreorder();
    TopNFacts(n, seen);
    SortAppend(BySizeDescending, seen, x);
    TakeOfPlace(BySizeDescending, Sort(BySizeDescending, seen), x, n);
    forall i | 0 <= i < |top| ensures BySizeDescending(top[i], x) {
      assert i < n - 1 ==> BySizeDescending(top[i], top[n - 1]);
    }
    PlaceLast(BySizeDescending, top, x);
  }

  /** Any other file is pushed, the list sorted, and the surplus last element dropped. */
  lemma PushFile(n: nat, seen: seq<File>, x: File)
    ensures TopN(n, seen + [x]) == Take(n, Sort(BySizeDescending, TopN(n, seen) + [x]))
  {
    var top := TopN(n, seen);
    BySizeIsPreorder();
    TopNFacts(n, seen);
    SortAppend(BySizeDescending, seen, x);
    SortAppend(BySizeDescending, top, x);
    TakeOfPlace(BySizeDescending, Sort(BySizeDescending, seen), x, n);
  }

  // ---- The scan ----

  datatype StopReason = Complete | MaxScan | TimeBudget

  datatype Report = Report(top: seq<File>, scanned: nat, stop: StopReason) {
    predicate Truncated() {
      stop != Complete
    }
  }

  /** The fold of one page into the running top list. */
  method ScanPage(limit: nat, maxScan: nat, files: seq<File>, ghost before: seq<File>,
                  top0: seq<File>, scanned0: nat)
    returns (top: seq<File>, scanned: nat, exhausted: bool)
    requires limit >= 1 && top0 == TopN(limit, before) && scanned0 == |before| <= maxScan
    ensures scanned0 <= scanned <= maxScan && scanned - scanned0 <= |files|
    ensures top == TopN(limit, before + files[..scanned - scanned0])
    ensures exhausted <==> scanned - scanned0 == |files|
    ensures !exhausted ==> scanned == maxScan
  {
    hide TopN, Sort, Sorted;
    top, scanned, exhausted := top0, scanned0, true;
    var smallest: Option<nat> := if top == [] then None else Some(top[|top| - 1].size);
    TopNFacts(limit, before);
    assert before + files[..0] == before;
    for k := 0 to |files|
      invariant scanned == scanned0 + k <= maxScan && exhausted
      invariant top == TopN(limit, before + files[..k])
      invariant |top| <= limit && (top != [] ==> smallest == Some(top[|top| - 1].size))
    {
      if scanned >= maxScan {
        exhausted := false;
        return;
      }
      var file := files[k];
      scanned := scanned + 1;
      ghost var seen := before + files[..k];
      assert before + files[..k + 1] == seen + [file];
      TopNFacts(limit, seen);
      if |top| < limit || file.size > smallest.value {
        PushFile(limit, seen, file);
        BySizeIsPreorder();
        SortFacts(BySizeDescending, top + [file]);
        top := Sort(BySizeDescending, top + [file]);
        if |top| > limit {
          top := top[..|top| - 1];
        }
        smallest := Some(top[|top| - 1].size);
      } else {
        SkipFile(limit, seen, file);
      }
    }
    assert files[..|files|] == files;
  }

  /** The cap is reached inside some page, and the listing goes on after it. */
  ghost predicate CapCutsShort(maxScan: nat, pages: seq<seq<File>>) {
    exists k :: 0 <= k < |pages| && |Concat(pages[..k])| <= maxScan <= |Concat(pages[..k + 1])| &&
                (k + 1 < |pages| || maxScan < |Concat(pages)|)
  }

  /** The first `k` pages are fetched in time, do not reach the cap, and leave time for another. */
  predicate GoesOnTo(k: nat, maxScan: nat, pages: seq<seq<File>>, replies: seq<Reply>, late: seq<bool>)
    requires k <= |pages| == |replies| == |late|
  {
    forall j :: 0 <= j < k ==> replies[j].Delivered? && !late[j] && |Concat(pages[..j + 1])| < maxScan
  }

  lemma NoneYet(maxScan: nat, pages: seq<seq<File>>, replies: seq<Reply>, late: seq<bool>)
    requires |pages| == |replies| == |late|
    ensures GoesOnTo(0, maxScan, pages, replies, late)
  {
  }

  lemma GoesOnFurther(k: nat, maxScan: nat, pages: seq<seq<File>>, replies: seq<Reply>, late: seq<bool>)
    requires k < |pages| == |replies| == |late| && GoesOnTo(k, maxScan, pages, replies, late)
    requires replies[k].Delivered? && !late[k] && |Concat(pages[..k + 1])| < maxScan
    ensures GoesOnTo(k + 1, maxScan, pages, replies, late)
  {
  }

  /** How the scan ends with its call for page `k`. */
  predicate EndsAt(k: nat, report: Option<Report>, maxScan: nat, pages: seq<seq<File>>, replies: seq<Reply>,
                   late: seq<bool>)
    requires k < |pages| == |replies| == |late|
  {
    var before, after := |Concat(pages[..k])|, |Concat(pages[..k + 1])|;
    match replies[k]
    case Failed => report.None?
    case TimedOut => report.Some? && report.value.stop == TimeBudget && report.value.scanned == before
    case Delivered =>
      && report.Some?
      && report.value.scanned == (if after <= maxScan then after else maxScan)
      && if after > maxScan || (after == maxScan && k + 1 < |pages|) then report.value.stop == MaxScan
         else if k + 1 < |pages| then report.value.stop == TimeBudget && late[k]
         else report.value.stop == Complete
  }

  /**
   * The scan of a bucket whose whole listing is `pages`; the k-th call answers `replies[k]`, and `late[k]`
   * says that the clock is past the budget when page k has been folded. A page is followed by another call
   * when the listing names a next file.
   */
  method LargestFiles(limit: nat, maxScan: nat, pages: seq<seq<File>>, replies: seq<Reply>, late: seq<bool>)
    returns (report: Option<Report>)
    requires limit >= 1 && |pages| >= 1 && |replies| == |late| == |pages|
    ensures exists k :: 0 <= k < |pages| && GoesOnTo(k, maxScan, pages, replies, late) &&
                        EndsAt(k, report, maxScan, pages, replies, late)
    ensures report.Some? ==>
              var r := report.value;
              var all := Concat(pages);
              && r.scanned <= maxScan && r.scanned <= |all|
              && r.top == TopN(limit, all[..r.scanned])
              && (!r.Truncated() ==> r.scanned == |all| && r.top == TopN(limit, all))
              && (r.stop.MaxScan? ==> r.scanned == maxScan && CapCutsShort(maxScan, pages))
              && (r.stop.TimeBudget? ==> exists k :: 0 <= k < |pages| && (replies[k].TimedOut? || late[k]))
  {
    hide GoesOnTo;
    NoneYet(maxScan, pages, replies, late);
    var top: seq<File> := [];
    var scanned := 0;
    var stop := Complete;
    var page := 0;
    var token := true;
    ghost var last: nat := 0;
    while token
      invariant stop == Complete && 0 <= page <= |pages| && (token <==> page < |pages|)
      invariant scanned <= maxScan && scanned <= |Concat(pages)|
      invariant top == TopN(limit, Concat(pages)[..scanned])
      invariant scanned == |Concat(pages[..page])|
      invariant token ==> GoesOnTo(page, maxScan, pages, replies, late)
      invariant last < |pages| && GoesOnTo(last, maxScan, pages, replies, late)
      invariant !token ==> EndsAt(last, Some(Report(top, scanned, stop)), maxScan, pages, replies, late)
      decreases |pages| - page, token
    {
      last := page;
      if replies[page].Failed? {
        assert EndsAt(page, None, maxScan, pages, replies, late);
        return None;
      }
      if replies[page].TimedOut? {
        stop := TimeBudget;
        break;
      }
      ghost var before := Concat(pages[..page]);
      ghost var all := Concat(pages);
      ConcatPrefix(pages, page);
      ConcatStep(pages, page);
      ConcatPrefix(pages, page + 1);
      assert all[..scanned] == before;
      var exhausted;
      top, scanned, exhausted := ScanPage(limit, maxScan, pages[page], before, top, scanned);
      assert before + pages[page][..scanned - |before|] == all[..scanned];
      token := page + 1 < |pages|;
      if scanned >= maxScan && (token || !exhausted) {
        stop := MaxScan;
        assert |Concat(pages[..page])| <= maxScan <= |Concat(pages[..page + 1])|;
        assert page + 1 == |pages| ==> pages[..page + 1] == pages;
        break;
      }
      if token && late[page] {
        stop := TimeBudget;
        break;
      }
      if token {
        GoesOnFurther(page, maxScan, pages, replies, late);
      }
      page := page + 1;
    }
    assert EndsAt(last, Some(Report(top, scanned, stop)), maxScan, pages, replies, late);
    assert pages[..|pages|] == pages;
    assert stop == Complete ==> Concat(pages)[..scanned] == Concat(pages);
    report := Some(Report(top, scanned, stop));
  }

  /** What the reference means: sorted, of the right length, and nothing left out is larger than what is kept. */
  lemma TopNIsLargest(n: nat, files: seq<File>)
    ensures var top := TopN(n, files);
            && Sorted(BySizeDescending, top)
            && |top| == (if |files| <= n then |files| else n)
            && multiset(top) <= multiset(files)
            && (forall x, y :: x in multiset(files) - multiset(top) && y in top ==> y.size >= x.size)
  {
    var s, top := Sort(BySizeDescending, files), TopN(n, files);
    BySizeIsPreorder();
    SortFacts(BySizeDescending, files);
    TopNFacts(n, files);
    hide Sort;
    var rest := s[|top|..];
    assert s == top + rest;
    assert multiset(files) - multiset(top) == multiset(rest) by {
      assert multiset(s) == multiset(top) + multiset(rest);
    }
    FrontIsLarger(s, |top|);
  }

  lemma FrontIsLarger(s: seq<File>, k: nat)
    requires Sorted(BySizeDescending, s) && k <= |s|
    ensures forall x, y :: x in multiset(s[k..]) && y in s[..k] ==> y.size >= x.size
  {
    forall x, y | x in multiset(s[k..]) && y in s[..k] ensures y.size >= x.size {
      assert x in s[k..];
      var j :| 0 <= j < |s[k..]| && s[k..][j] == x;
      var i :| 0 <= i < k && s[..k][i] == y;
      assert BySizeDescending(s[i], s[k + j]);
    }
  }
}
