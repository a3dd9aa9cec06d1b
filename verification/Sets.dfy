/** Facts about finite sets that are needed in several places. */
module Sets {
  lemma NonEmptyIds(s: set<int>)
    requires s != {}
    ensures exists id: int :: id in s
  {
    assert (forall id: int :: id !in s) ==> s <= {};
  }

  lemma {:induction false} SubsetCount<T>(a: set<T>, b: set<T>)
    requires a <= b
    ensures |a| <= |b|
  {
    if a != {} {
      var x :| x in a;
      SubsetCount(a - {x}, b - {x});
    }
  }
}
