/** Listings that arrive page by page. */
module Paging {

  /** What the call for one page does: it delivers, misses the deadline of the scan, or fails otherwise. */
  datatype Reply = Delivered | TimedOut | Failed

  function Take<T>(n: nat, s: seq<T>): seq<T> {
    if |s| <= n then s else s[..n]
  }

  function Concat<T>(pages: seq<seq<T>>): seq<T> {
    if pages == [] then [] else Concat(pages[..|pages| - 1]) + pages[|pages| - 1]
  }

  lemma ConcatStep<T>(pages: seq<seq<T>>, k: nat)
    requires k < |pages|
    ensures Concat(pages[..k + 1]) == Concat(pages[..k]) + pages[k]
  {
    assert pages[..k + 1][..k] == pages[..k];
  }

  lemma {:induction false} ConcatPrefix<T>(pages: seq<seq<T>>, k: nat)
    requires k <= |pages|
    ensures Concat(pages[..k]) <= Concat(pages)
    decreases |pages| - k
  {
    if k < |pages| {
      ConcatStep(pages, k);
      ConcatPrefix(pages, k + 1);
    } else {
      assert pages[..k] == pages;
    }
  }

  lemma {:induction false} ConcatAppend<T>(a: seq<seq<T>>, b: seq<seq<T>>)
    ensures Concat(a + b) == Concat(a) + Concat(b)
    decreases |b|
  {
    if b == [] {
      assert a + b == a;
    } else {
      assert (a + b)[..|a + b| - 1] == a + b[..|b| - 1];
      ConcatAppend(a, b[..|b| - 1]);
    }
  }
}
