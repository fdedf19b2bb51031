/** Small facts about finite sets. */
module Sets {

  lemma EmptyIfNone<T>(s: set<T>)
    requires forall x :: x !in s
    ensures s == {}
  {
  }

  /** A witness that a set is not empty. */
  lemma Member<T>(s: set<T>) returns (x: T)
    requires s != {}
    ensures x in s
  {
    if forall y :: y !in s {
      EmptyIfNone(s);
    }
    x :| x in s;
  }
}
