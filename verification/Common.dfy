/** Small shared vocabulary: optional values, the smaller of two numbers, and facts about finite sets. */
module Common {

  datatype Option<+T> = None | Some(value: T)

  function Min(x: real, y: real): real {
    if x <= y then x else y
  }

  /** Removing an element that is present takes exactly one off the size; adding an absent one puts one on. */
  lemma SizeAfterInsert<T>(s: set<T>, x: T)
    requires x !in s
    ensures |s + {x}| == |s| + 1
  {
  }

  /** A set contained in another is no larger. */
  lemma SubsetSize<T>(a: set<T>, b: set<T>)
    requires a <= b
    ensures |a| <= |b|
  {
    assert b == a + (b - a);
  }
}
