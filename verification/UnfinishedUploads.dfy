/** `b2_unfinished_uploads`: collecting abandoned uploads under a cap, then sizing them under a time budget. */
module UnfinishedUploads {
  import opened Common
  import opened Paging

  /** A start time may be missing, or a number that no Date can hold: its `getTime()` is NaN. */
  datatype Start = Unknown | At(ms: int) | Unrepresentable

  datatype Upload = Upload(fileId: string, fileName: string, initiated: Start)

  predicate IsMatch(cutoff: Option<int>, upload: Upload) {
    !(cutoff.Some? && upload.initiated.At? && upload.initiated.ms > cutoff.value)
  }

  function Matches(cutoff: Option<int>, files: seq<Upload>): seq<Upload> {
    if files == [] then []
    else
      var last := files[|files| - 1];
      Matches(cutoff, files[..|files| - 1]) + if IsMatch(cutoff, last) then [last] else []
  }

  lemma {:induction false} MatchesConcat(cutoff: Option<int>, a: seq<Upload>, b: seq<Upload>)
    ensures Matches(cutoff, a + b) == Matches(cutoff, a) + Matches(cutoff, b)
    decreases |b|
  {
    if b == [] {
      assert a + b == a;
    } else {
      assert (a + b)[..|a + b| - 1] == a + b[..|b| - 1];
      MatchesConcat(cutoff, a, b[..|b| - 1]);
    }
  }

  /** The filter loop over one page. */
  method MatchingUnfinishedUploads(files: seq<Upload>, cutoff: Option<int>) returns (matches: seq<Upload>)
    ensures matches == Matches(cutoff, files)
  {
    matches := [];
    for k := 0 to |files|
      invariant matches == Matches(cutoff, files[..k])
    {
      assert files[..k + 1][..k] == files[..k];
      if cutoff.Some? && files[k].initiated.At? && files[k].initiated.ms > cutoff.value {
        continue;
      }
      matches := matches + [files[k]];
    }
    assert files[..|files|] == files;
  }

  /** The matches are exactly the uploads not known to have started after the cutoff, in listing order. */
  lemma {:induction false} MatchesAreExact(cutoff: Option<int>, files: seq<Upload>, upload: Upload)
    ensures multiset(Matches(cutoff, files))[upload] ==
            if cutoff.Some? && upload.initiated.At? && upload.initiated.ms > cutoff.value then 0
            else multiset(files)[upload]
  {
    if files != [] {
      var last := |files| - 1;
      MatchesAreExact(cutoff, files[..last], upload);
      assert files == files[..last] + [files[last]];
    }
  }

  // ---- Collecting ----

  datatype StopReason = Complete | MaxUploads | TimeBudget

  datatype Collected = Collected(uploads: seq<Upload>, stop: StopReason) {
    predicate Truncated() {
      stop != Complete
    }
  }

  lemma TakeStep<T>(n: nat, a: seq<T>, b: seq<T>)
    requires |a| <= n
    ensures Take(n, a + b) == a + Take(n - |a|, b)
  {
  }

  /** The scan has a reason to stop at the cap: more matches, more pages, or a last page naming an empty token. */
  predicate MoreBehindCap(maxUploads: nat, cutoff: Option<int>, pages: seq<seq<Upload>>, emptyToken: bool) {
    |Matches(cutoff, Concat(pages))| > maxUploads || |pages| > 1 || emptyToken
  }

  /** The first `k` pages are delivered in time and leave room under the cap. */
  predicate GoesOnTo(k: nat, maxUploads: nat, cutoff: Option<int>, pages: seq<seq<Upload>>, replies: seq<Reply>,
                     late: seq<bool>)
    requires k <= |pages| == |replies| == |late|
  {
    forall j :: 0 <= j < k ==>
      replies[j].Delivered? && !late[j] && |Matches(cutoff, Concat(pages[..j + 1]))| < maxUploads
  }

  lemma NoneYet(maxUploads: nat, cutoff: Option<int>, pages: seq<seq<Upload>>, replies: seq<Reply>, late: seq<bool>)
    requires |pages| == |replies| == |late|
    ensures GoesOnTo(0, maxUploads, cutoff, pages, replies, late)
  {
  }

  lemma GoesOnFurther(k: nat, maxUploads: nat, cutoff: Option<int>, pages: seq<seq<Upload>>, replies: seq<Reply>,
                      late: seq<bool>)
    requires k < |pages| == |replies| == |late| && GoesOnTo(k, maxUploads, cutoff, pages, replies, late)
    requires replies[k].Delivered? && !late[k] && |Matches(cutoff, Concat(pages[..k + 1]))| < maxUploads
    ensures GoesOnTo(k + 1, maxUploads, cutoff, pages, replies, late)
  {
  }

  /** How the walk ends with its call for page `k`. */
  predicate EndsAt(k: nat, result: Option<Collected>, maxUploads: nat, cutoff: Option<int>,
                   pages: seq<seq<Upload>>, emptyToken: bool, replies: seq<Reply>, late: seq<bool>)
    requires k < |pages| == |replies| == |late|
  {
    var before, after := Matches(cutoff, Concat(pages[..k])), Matches(cutoff, Concat(pages[..k + 1]));
    var named := k + 1 < |pages| || emptyToken;
    match replies[k]
    case Failed => result.None?
    case TimedOut => result == Some(Collected(before, TimeBudget))
    case Delivered =>
      && result.Some? && result.value.uploads == Take(maxUploads, after)
      && if |after| > maxUploads || (|after| == maxUploads && named) then result.value.stop == MaxUploads
         else if k + 1 < |pages| then result.value.stop == TimeBudget && late[k]
         else result.value.stop == Complete
  }

  /**
   * The walk over a listing `pages`. Call k answers `replies[k]`; `late[k]` says the clock is past the budget
   * after page k. Every page but the last names a next upload; the last names none, or the empty string.
   */
  method Collect(maxUploads: nat, cutoff: Option<int>, pages: seq<seq<Upload>>, emptyToken: bool,
                 replies: seq<Reply>, late: seq<bool>)
    returns (result: Option<Collected>, walked: nat)
    requires |pages| >= 1 && |replies| == |late| == |pages|
    ensures walked <= |pages| && forall k :: 0 <= k < walked ==> replies[k].Delivered?
    ensures exists k :: 0 <= k < |pages| && GoesOnTo(k, maxUploads, cutoff, pages, replies, late) &&
                        EndsAt(k, result, maxUploads, cutoff, pages, emptyToken, replies, late)
    ensures result.None? ==> walked < |pages| && replies[walked].Failed?
    ensures result.Some? ==>
              var r := result.value;
              && r.uploads == Take(maxUploads, Matches(cutoff, Concat(pages[..walked])))
              && |r.uploads| <= maxUploads
              && r.uploads <= Matches(cutoff, Concat(pages))
              && (!r.Truncated() ==> r.uploads == Matches(cutoff, Concat(pages)))
              && (r.stop.MaxUploads? ==>
                    |r.uploads| == maxUploads && MoreBehindCap(maxUploads, cutoff, pages, emptyToken))
              && (r.stop.TimeBudget? ==>
                    walked < |pages| && (replies[walked].TimedOut? || (walked > 0 && late[walked - 1])))
  {
    hide Matches, Concat, GoesOnTo;
    NoneYet(maxUploads, cutoff, pages, replies, late);
    var uploads: seq<Upload> := [];
    var stop := Complete;
    var token := true;
    walked := 0;
    ghost var last: nat := 0;
    EmptyMatches(cutoff);
    assert pages[..0] == [];
    while token
      invariant stop == Complete && walked <= |pages| && (token <==> walked < |pages|)
      invariant forall k :: 0 <= k < walked ==> replies[k].Delivered?
      invariant uploads == Matches(cutoff, Concat(pages[..walked])) && |uploads| <= maxUploads
      invariant token ==> GoesOnTo(walked, maxUploads, cutoff, pages, replies, late)
      invariant last < |pages| && GoesOnTo(last, maxUploads, cutoff, pages, replies, late)
      invariant !token ==> EndsAt(last, Some(Collected(uploads, stop)), maxUploads, cutoff, pages, emptyToken,
                                  replies, late)
      decreases |pages| - walked, token
    {
      var page := walked;
      last := page;
      if replies[page].Failed? {
        assert EndsAt(page, None, maxUploads, cutoff, pages, emptyToken, replies, late);
        MatchesPrefix(cutoff, pages, walked);
        return None, walked;
      }
      if replies[page].TimedOut? {
        stop := TimeBudget;
        break;
      }
      var matching := MatchingUnfinishedUploads(pages[page], cutoff);
      var availableSlots := if maxUploads - |uploads| > 0 then maxUploads - |uploads| else 0;
      ConcatStep(pages, page);
      MatchesConcat(cutoff, Concat(pages[..page]), pages[page]);
      TakeStep(maxUploads, uploads, matching);
      uploads := uploads + if |matching| > availableSlots then matching[..availableSlots] else matching;
      walked := page + 1;
      MatchesPrefix(cutoff, pages, walked);
      token := page + 1 < |pages|;
      var named := token || emptyToken;
      if |matching| > availableSlots || (named && |uploads| >= maxUploads) {
        stop := MaxUploads;
        break;
      }
      if token && late[page] {
        stop := TimeBudget;
        break;
      }
      if token {
        GoesOnFurther(page, maxUploads, cutoff, pages, replies, late);
      }
    }
    assert EndsAt(last, Some(Collected(uploads, stop)), maxUploads, cutoff, pages, emptyToken, replies, late);
    MatchesPrefix(cutoff, pages, walked);
    assert pages[..|pages|] == pages;
    result := Some(Collected(uploads, stop));
  }

  lemma EmptyMatches(cutoff: Option<int>)
    ensures Matches(cutoff, Concat([])) == []
  {
  }

  lemma MatchesPrefix(cutoff: Option<int>, pages: seq<seq<Upload>>, k: nat)
    requires k <= |pages|
    ensures Matches(cutoff, Concat(pages[..k])) <= Matches(cutoff, Concat(pages))
  {
    hide Concat, Matches;
    ConcatPrefix(pages, k);
    var all, part := Concat(pages), Concat(pages[..k]);
    assert all == part + all[|part|..];
    MatchesConcat(cutoff, part, all[|part|..]);
  }

  // ---- Sizing ----

  function Total(sizes: seq<nat>): nat {
    if sizes == [] then 0 else Total(sizes[..|sizes| - 1]) + sizes[|sizes| - 1]
  }

  lemma {:induction false} TotalConcat(a: seq<nat>, b: seq<nat>)
    ensures Total(a + b) == Total(a) + Total(b)
    decreases |b|
  {
    if b == [] {
      assert a + b == a;
    } else {
      assert (a + b)[..|a + b| - 1] == a + b[..|b| - 1];
      TotalConcat(a, b[..|b| - 1]);
    }
  }

  lemma TotalOfOne(size: nat)
    ensures Total([size]) == size
  {
    assert [size][..0] == [];
  }

  /** The part bytes of the first n uploads. */
  function TotalOfFirst(parts: seq<seq<seq<nat>>>, n: nat): nat
    requires n <= |parts|
  {
    if n == 0 then 0 else TotalOfFirst(parts, n - 1) + Total(Concat(parts[n - 1]))
  }

  /** They are all parts of all pages of these uploads. */
  lemma {:induction false} TotalOfFirstIsTotal(parts: seq<seq<seq<nat>>>, n: nat)
    requires n <= |parts|
    ensures TotalOfFirst(parts, n) == Total(Concat(Concat(parts[..n])))
  {
    if n > 0 {
      TotalOfFirstIsTotal(parts, n - 1);
      ConcatStep(parts, n - 1);
      ConcatAppend(Concat(parts[..n - 1]), parts[n - 1]);
      TotalConcat(Concat(Concat(parts[..n - 1])), Concat(parts[n - 1]));
    }
  }

  lemma {:induction false} TotalOfFirstMonotone(parts: seq<seq<seq<nat>>>, m: nat, n: nat)
    requires m <= n <= |parts|
    ensures TotalOfFirst(parts, m) <= TotalOfFirst(parts, n)
    decreases n - m
  {
    if m < n {
      TotalOfFirstMonotone(parts, m, n - 1);
    }
  }

  /** `(a ?? Infinity) < (b ?? Infinity)`; a comparison with NaN is false. */
  predicate Earlier(a: Start, b: Start) {
    a.At? && (b.Unknown? || (b.At? && a.ms < b.ms))
  }

  /** The index the running `oldest` ends at. */
  function Oldest(uploads: seq<Upload>): (i: nat)
    requires uploads != []
    ensures i < |uploads|
  {
    if |uploads| == 1 then 0
    else
      var last := |uploads| - 1;
      var i := Oldest(uploads[..last]);
      if Earlier(uploads[last].initiated, uploads[i].initiated) then last else i
  }

  /** What the sizing calls of one upload give: its part pages, how each call ends, and the clock afterwards. */
  datatype PartListing = PartListing(pages: seq<seq<nat>>, replies: seq<Reply>, over: bool)

  predicate WellFormed(l: PartListing) {
    |l.pages| >= 1 && |l.replies| == |l.pages|
  }

  /** How many pages arrive before the first call that does not deliver, counting from page k. */
  function DeliveredFrom(replies: seq<Reply>, k: nat): (n: nat)
    requires k <= |replies|
    ensures k <= n <= |replies| && (forall i :: k <= i < n ==> replies[i].Delivered?)
    ensures n < |replies| ==> !replies[n].Delivered?
    decreases |replies| - k
  {
    if k == |replies| || !replies[k].Delivered? then k else DeliveredFrom(replies, k + 1)
  }

  function Delivered(l: PartListing): (n: nat)
    requires WellFormed(l)
    ensures n <= |l.pages| && (forall k :: 0 <= k < n ==> l.replies[k].Delivered?)
    ensures n < |l.pages| ==> !l.replies[n].Delivered?
  {
    DeliveredFrom(l.replies, 0)
  }

  predicate IsCompleted(l: PartListing)
    requires WellFormed(l)
  {
    Delivered(l) == |l.pages|
  }

  /** The call that ends the scan throws something other than the deadline. */
  predicate Fails(l: PartListing)
    requires WellFormed(l)
  {
    !IsCompleted(l) && l.replies[Delivered(l)].Failed?
  }

  function DeliveredBytes(l: PartListing): nat
    requires WellFormed(l)
  {
    Total(Concat(l.pages[..Delivered(l)]))
  }

  /** The part scan of one upload: `failed` if a call throws, `completed` if every page arrived. */
  method ScanParts(l: PartListing, wasted0: nat) returns (wasted: nat, completed: bool, failed: bool)
    requires WellFormed(l)
    ensures wasted == wasted0 + DeliveredBytes(l)
    ensures completed <==> IsCompleted(l)
    ensures failed <==> Fails(l)
  {
    hide Total, Concat, DeliveredFrom;
    wasted, completed, failed := wasted0, true, false;
    var page := 0;
    NoParts();
    assert l.pages[..0] == [];
    while page < |l.pages|
      invariant 0 <= page <= Delivered(l) && completed && !failed
      invariant wasted == wasted0 + Total(Concat(l.pages[..page]))
    {
      if !l.replies[page].Delivered? {
        return wasted, false, l.replies[page].Failed?;
      }
      ConcatStep(l.pages, page);
      TotalConcat(Concat(l.pages[..page]), l.pages[page]);
      var added := SumPage(l.pages[page]);
      wasted := wasted + added;
      page := page + 1;
    }
  }

  lemma NoParts()
    ensures Total(Concat([])) == 0
  {
  }

  lemma TotalPrefix(pages: seq<seq<nat>>, k: nat)
    requires k <= |pages|
    ensures Total(Concat(pages[..k])) <= Total(Concat(pages))
  {
    hide Concat, Total;
    ConcatPrefix(pages, k);
    var all, part := Concat(pages), Concat(pages[..k]);
    assert all == part + all[|part|..];
    TotalConcat(part, all[|part|..]);
  }

  method SumPage(sizes: seq<nat>) returns (sum: nat)
    ensures sum == Total(sizes)
  {
    sum := 0;
    for k := 0 to |sizes|
      invariant sum == Total(sizes[..k])
    {
      assert sizes[..k + 1][..k] == sizes[..k];
      sum := sum + sizes[k];
    }
    assert sizes[..|sizes|] == sizes;
  }

  datatype Sizes = Sizes(wasted: nat, oldest: nat, isLowerBound: bool, sized: nat)

  function PartsOf(listings: seq<PartListing>): (r: seq<seq<seq<nat>>>)
    ensures |r| == |listings| && forall i :: 0 <= i < |r| ==> r[i] == listings[i].pages
  {
    seq(|listings|, i requires 0 <= i < |listings| => listings[i].pages)
  }

  predicate AllWellFormed(listings: seq<PartListing>) {
    forall i :: 0 <= i < |listings| ==> WellFormed(listings[i])
  }

  /** Sizing goes no further than an upload whose scan is cut short, or after which the budget is spent. */
  predicate Stops(l: PartListing)
    requires WellFormed(l)
  {
    l.over || !IsCompleted(l)
  }

  /** The first upload from `k` on at which sizing stops, or the number of uploads if it never does. */
  function FirstStop(listings: seq<PartListing>, k: nat): (n: nat)
    requires AllWellFormed(listings) && k <= |listings|
    ensures k <= n <= |listings| && (forall i :: k <= i < n ==> !Stops(listings[i]))
    ensures n < |listings| ==> Stops(listings[n])
    decreases |listings| - k
  {
    if k == |listings| || Stops(listings[k]) then k else FirstStop(listings, k + 1)
  }

  /** The sizes reported when sizing stops at upload n. */
  function SizesAt(listings: seq<PartListing>, oldest: nat, n: nat): Sizes
    requires AllWellFormed(listings) && n <= |listings|
  {
    var before := TotalOfFirst(PartsOf(listings), n);
    if n == |listings| then Sizes(before, oldest, false, n)
    else Sizes(before + DeliveredBytes(listings[n]), oldest, true, if IsCompleted(listings[n]) then n + 1 else n)
  }

  /** The loop over the collected uploads; `None` is an error thrown by a part listing. */
  method SizeUploads(uploads: seq<Upload>, listings: seq<PartListing>) returns (result: Option<Sizes>)
    requires |uploads| == |listings| >= 1 && AllWellFormed(listings)
    ensures var stop := FirstStop(listings, 0);
            result == if stop < |listings| && Fails(listings[stop]) then None
                      else Some(SizesAt(listings, Oldest(uploads), stop))
  {
    hide Total, Concat, DeliveredBytes, Delivered, Fails, IsCompleted, FirstStop;
    ghost var stop: nat := 0;
    ghost var parts := PartsOf(listings);
    var wasted, oldest, isLowerBound, sized := 0, 0, false, 0;
    for i := 0 to |uploads|
      invariant oldest == if i == 0 then 0 else Oldest(uploads[..i])
      invariant stop <= i && (forall k :: 0 <= k < stop ==> !Stops(listings[k]))
      invariant isLowerBound <==> stop < i
      invariant stop < i ==> Stops(listings[stop]) && !Fails(listings[stop])
      invariant stop == i ==> sized == i && wasted == TotalOfFirst(parts, i)
      invariant stop < i ==> Sizes(wasted, oldest, true, sized) == SizesAt(listings, oldest, stop)
    {
      assert uploads[..i + 1][..i] == uploads[..i];
      if Earlier(uploads[i].initiated, uploads[oldest].initiated) {
        oldest := i;
      }
      if isLowerBound {
        continue;
      }
      var completed, failed;
      wasted, completed, failed := ScanParts(listings[i], wasted);
      if failed {
        FailureStops(listings[i]);
        assert FirstStop(listings, 0) == stop;
        return None;
      }
      CompletedBytes(listings[i]);
      if completed {
        sized := sized + 1;
      } else {
        isLowerBound := true;
      }
      if listings[i].over {
        isLowerBound := true;
      }
      stop := if isLowerBound then i else i + 1;
    }
    assert uploads[..|uploads|] == uploads;
    assert FirstStop(listings, 0) == stop;
    result := Some(Sizes(wasted, oldest, isLowerBound, sized));
  }

  lemma FailureStops(l: PartListing)
    requires WellFormed(l) && Fails(l)
    ensures Stops(l)
  {
  }

  lemma CompletedBytes(l: PartListing)
    requires WellFormed(l)
    ensures DeliveredBytes(l) <= Total(Concat(l.pages))
    ensures IsCompleted(l) ==> DeliveredBytes(l) == Total(Concat(l.pages))
  {
    TotalPrefix(l.pages, Delivered(l));
    assert l.pages[..|l.pages|] == l.pages;
  }

  /**
   * The reported bytes never exceed the true part bytes of all uploads and cover at least the sized ones; they
   * are exact when the lower-bound flag is clear, which is when no scan was cut short and no budget spent.
   */
  lemma WastedIsLowerBound(listings: seq<PartListing>, oldest: nat)
    requires AllWellFormed(listings)
    ensures var r := SizesAt(listings, oldest, FirstStop(listings, 0));
            var parts := PartsOf(listings);
            && r.sized <= |listings|
            && TotalOfFirst(parts, r.sized) <= r.wasted <= TotalOfFirst(parts, |listings|)
            && (!r.isLowerBound ==> r.sized == |listings| && r.wasted == TotalOfFirst(parts, |listings|))
            && (r.isLowerBound <==> exists i :: 0 <= i < |listings| && Stops(listings[i]))
  {
    hide Total, Concat, DeliveredBytes, Delivered;
    var n, parts := FirstStop(listings, 0), PartsOf(listings);
    if n < |listings| {
      CompletedBytes(listings[n]);
      TotalOfFirstMonotone(parts, n + 1, |listings|);
    }
  }

  /**
   * The sized uploads are the first ones, each scanned to its end within the budget but perhaps the last; and
   * the bytes are all of theirs, with what arrived of the next one when its scan was cut short.
   */
  lemma SizedAreScanned(listings: seq<PartListing>, oldest: nat)
    requires AllWellFormed(listings)
    ensures var r := SizesAt(listings, oldest, FirstStop(listings, 0));
            && r.sized <= |listings|
            && (forall i :: 0 <= i < r.sized ==> IsCompleted(listings[i]) && (i + 1 < r.sized ==> !listings[i].over))
            && var cut := r.sized < |listings| && (r.sized == 0 || !listings[r.sized - 1].over);
               && (cut ==> !IsCompleted(listings[r.sized]))
               && r.wasted == TotalOfFirst(PartsOf(listings), r.sized) +
                              if cut then DeliveredBytes(listings[r.sized]) else 0
  {
    hide Total, Concat, DeliveredBytes, IsCompleted, PartsOf;
    var n := FirstStop(listings, 0);
    if n < |listings| && IsCompleted(listings[n]) {
      CompletedBytes(listings[n]);
      PartsAre(listings, n);
    }
  }

  lemma PartsAre(listings: seq<PartListing>, n: nat)
    requires n < |listings| && AllWellFormed(listings)
    ensures PartsOf(listings)[n] == listings[n].pages
  {
  }

  // ---- What `oldest` means ----

  /** No upload with a usable start time is earlier, and none before it is as early; a missing time is the latest. */
  predicate IsOldest(uploads: seq<Upload>, i: nat) {
    && i < |uploads|
    && match uploads[i].initiated
       case Unrepresentable => false
       case Unknown =>
         && (forall j :: 0 <= j < |uploads| ==> !uploads[j].initiated.At?)
         && (forall j :: 0 <= j < i ==> uploads[j].initiated.Unrepresentable?)
       case At(ms) =>
         forall j :: 0 <= j < |uploads| && uploads[j].initiated.At? ==>
           ms <= uploads[j].initiated.ms && (j < i ==> ms < uploads[j].initiated.ms)
  }

  /** `oldest` is the first minimum of the start times exactly when the first upload's start time is usable. */
  lemma {:induction false} OldestIsMinimumIff(uploads: seq<Upload>)
    requires uploads != []
    ensures IsOldest(uploads, Oldest(uploads)) <==> !uploads[0].initiated.Unrepresentable?
    ensures uploads[0].initiated.Unrepresentable? ==> Oldest(uploads) == 0
    ensures !uploads[0].initiated.Unrepresentable? ==> !uploads[Oldest(uploads)].initiated.Unrepresentable?
  {
    if |uploads| > 1 {
      OldestIsMinimumIff(uploads[..|uploads| - 1]);
    }
  }
}
