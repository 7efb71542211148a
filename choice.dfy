/**
 * Iteration over hash-based containers visits elements in an unspecified
 * order; the model picks the next element with `:|`. This lemma supplies
 * the element's existence.
 */
module Choice {

  lemma NonEmptyHasMember(s: set<int>)
    requires s != {}
    ensures exists y :: y in s
  {
    if forall y :: y !in s {
      assert false;
    }
  }
}
