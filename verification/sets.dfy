/** `NSets`: a `HashSet` of the given values. `null` is an ordinary
    member, so values of a nullable type are `Option`s here. */
module Sets {
  import opened Wrappers
  import opened Seqs
  import opened Streams

  /** `asSet(values...)`: `new HashSet<>(asList(values))`. Repeated values
      collapse, so the set is as large as the `distinct()` stream. */
  function AsSet<T(!new)>(values: seq<T>): (r: set<T>)
    ensures forall x :: x in r <==> x in values
    ensures |r| == |Distinct(values)|
  {
    DistinctCountsElements(values);
    set x | x in values
  }

  /** `asSet(iterable)`: `asStream(values).collect(toSet())`; a `null`
      iterable streams nothing. */
  function AsSetIterable<T(!new)>(values: Option<seq<T>>): (r: set<T>)
    ensures values.None? ==> r == {}
    ensures values.Some? ==> forall x :: x in r <==> x in values.value
  {
    AsSet(AsStreamIterable(values))
  }

  /** `asSet(iterator)`: `asSet(() -> iterator)`, the set of the elements
      the iterator has left. */
  function AsSetIterator<T(!new)>(remaining: seq<T>): (r: set<T>)
    ensures forall x :: x in r <==> x in remaining
  {
    AsSetIterable(Some(AsStreamIterator(remaining)))
  }

  // ---------------------------------------------------------------------
  // Laws

  /** The three overloads build the same set from the same elements. */
  lemma OverloadsAgree<T(!new)>(values: seq<T>)
    ensures AsSetIterable(Some(values)) == AsSet(values)
    ensures AsSetIterator(values) == AsSet(values)
  {
  }

  /** `asSet(null, null, null, "Foo")` has the two members `null` and
      "Foo". */
  lemma NullIsAMember()
    ensures AsSet([None, None, None, Some("Foo")]) == {None, Some("Foo")}
    ensures |AsSet([None, None, None, Some("Foo")])| == 2
  {
    var s: seq<Option<string>> := [None, None, None, Some("Foo")];
    assert s[3] == Some("Foo");
    assert AsSet(s) == {None, Some("Foo")};
  }

  /** Adding a value already present changes nothing; a new one adds one
      member. */
  lemma AsSetOfSnoc<T(!new)>(values: seq<T>, x: T)
    ensures AsSet(values + [x]) == AsSet(values) + {x}
    ensures |AsSet(values + [x])| == if x in values then |AsSet(values)| else |AsSet(values)| + 1
  {
    assert forall y :: y in values + [x] <==> y in values || y == x;
  }
}
