/** Go's `range` over a map visits the keys in an unspecified order: each step picks any key not yet visited. */
module Sets {

  lemma {:induction false} NoMemberIsEmpty<T>(s: set<T>)
    requires forall x :: x !in s
    ensures s == {}
  {
  }

  lemma {:induction false} HasMember<T>(s: set<T>)
    requires s != {}
    ensures exists x :: x in s
  {
    if forall x :: x !in s {
      NoMemberIsEmpty(s);
    }
  }

  method Pick<T(==)>(s: set<T>) returns (x: T)
    requires s != {}
    ensures x in s
  {
    HasMember(s);
    x :| x in s;
  }
}
