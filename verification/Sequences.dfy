/** Sequences without repetition. */
module Sequences {

  ghost predicate Distinct<T>(s: seq<T>) {
    forall i, j | 0 <= i < j < |s| :: s[i] != s[j]
  }

  lemma DistinctAppend<T>(s: seq<T>, last: T)
    ensures Distinct(s + [last]) <==> Distinct(s) && last !in s
  {
    var t := s + [last];
    assert forall i | 0 <= i < |s| :: t[i] == s[i];
    if Distinct(t) {
      assert forall i | 0 <= i < |s| :: t[i] != t[|s|];
    }
  }

  lemma {:induction false} DistinctSize<T>(s: seq<T>, elements: set<T>)
    requires Distinct(s)
    requires forall x :: x in s <==> x in elements
    ensures |s| == |elements|
  {
    if s == [] {
      assert elements == {};
    } else {
      var init, last := s[..|s| - 1], s[|s| - 1];
      assert s == init + [last];
      assert last in s;
      DistinctSize(init, elements - {last});
    }
  }
}
