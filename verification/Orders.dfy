// Comparison functions of the containers.
module Orders {
  // The user's data. Its order is the container's compare function.
  type Data(0, !new)

  ghost predicate TotalPreorder(compare: (Data, Data) -> int) {
    && (forall a, b :: compare(a, b) < 0 <==> compare(b, a) > 0)
    && (forall a, b, c :: compare(a, b) <= 0 && compare(b, c) <= 0 ==> compare(a, c) <= 0)
  }

  lemma LessTrans(compare: (Data, Data) -> int, a: Data, b: Data, c: Data)
    requires TotalPreorder(compare)
    ensures compare(a, b) < 0 && compare(b, c) <= 0 ==> compare(a, c) < 0
    ensures compare(a, b) <= 0 && compare(b, c) < 0 ==> compare(a, c) < 0
  {
    assert compare(b, c) <= 0 && compare(c, a) <= 0 ==> compare(b, a) <= 0;
    assert compare(c, a) <= 0 && compare(a, b) <= 0 ==> compare(c, b) <= 0;
  }
}
