/** `NCollectionPredicates`: null-safe membership tests over a possibly-null
    `Iterable` whose elements may themselves be `null`. Every predicate here
    is `false` on a `null` container. */
module CollectionPredicates {
  import opened Wrappers
  import opened Predicates
  import opened Streams

  /** A possibly-null `Iterable<T>`, as the elements it produces. */
  type Container<T> = Option<seq<Option<T>>>

  /** `Stream.anyMatch`. */
  predicate AnyMatch<T>(s: seq<T>, p: Pred<T>)
  {
    exists i :: 0 <= i < |s| && p(s[i])
  }

  /** `notEmpty()`: non-null and `iterator().hasNext()`. */
  function NotEmpty<T(!new)>(): (r: Pred<Container<T>>)
    ensures forall c :: r(c) <==> c.Some? && |c.value| > 0
  {
    And(NotNull(), OnValue((s: seq<Option<T>>) => |s| > 0))
  }

  /** `empty()`: non-null and `!iterator().hasNext()`. */
  function Empty<T(!new)>(): (r: Pred<Container<T>>)
    ensures forall c :: r(c) <==> c.Some? && |c.value| == 0
  {
    And(NotNull(), OnValue((s: seq<Option<T>>) => |s| == 0))
  }

  /** `contains(element)`: non-null and some element is `equalTo(element)`. */
  function Contains<T(!new, ==)>(e: Option<T>): (r: Pred<Container<T>>)
    ensures forall c :: r(c) <==> c.Some? && e in c.value
  {
    And(NotNull(), OnValue((s: seq<Option<T>>) => AnyMatch(s, EqualTo(e))))
  }

  /** `reduce(notEmpty(), Predicate::and)` over `contains(e)` for each `e`. */
  function ContainsEach<T(!new, ==)>(es: seq<Option<T>>): (r: Pred<Container<T>>)
    ensures forall c :: r(c) <==> c.Some? && |c.value| > 0 && forall i :: 0 <= i < |es| ==> es[i] in c.value
  {
    if |es| == 0 then NotEmpty()
    else And(ContainsEach(es[..|es| - 1]), Contains(es[|es| - 1]))
  }

  /** `reduce(never(), Predicate::or)` over `contains(e)` for each `e`. */
  function ContainsSome<T(!new, ==)>(es: seq<Option<T>>): (r: Pred<Container<T>>)
    ensures forall c :: r(c) <==> c.Some? && exists i :: 0 <= i < |es| && es[i] in c.value
  {
    if |es| == 0 then Never()
    else Or(ContainsSome(es[..|es| - 1]), Contains(es[|es| - 1]))
  }

  /** `containsAll(Iterable elements)`; a `null` iterable of elements is
      the empty stream. */
  function ContainsAllIterable<T(!new, ==)>(elements: Option<seq<Option<T>>>): (r: Pred<Container<T>>)
    ensures forall c :: r(c) <==>
              c.Some? && |c.value| > 0 && forall e :: e in AsStreamIterable(elements) ==> e in c.value
  {
    And(NotNull(), ContainsEach(AsStreamIterable(elements)))
  }

  /** `containsAll(T... elements)`: `containsAll(asList(elements))`. */
  function ContainsAll<T(!new, ==)>(es: seq<Option<T>>): (r: Pred<Container<T>>)
    ensures forall c :: r(c) <==> c.Some? && |c.value| > 0 && forall e :: e in es ==> e in c.value
  {
    ContainsAllIterable(Some(es))
  }

  /** `containsAny(Iterable elements)`. */
  function ContainsAnyIterable<T(!new, ==)>(elements: Option<seq<Option<T>>>): (r: Pred<Container<T>>)
    ensures forall c :: r(c) <==> c.Some? && exists e :: e in AsStreamIterable(elements) && e in c.value
  {
    And(NotNull(), ContainsSome(AsStreamIterable(elements)))
  }

  /** `containsAny(T... elements)`. */
  function ContainsAny<T(!new, ==)>(es: seq<Option<T>>): (r: Pred<Container<T>>)
    ensures forall c :: r(c) <==> c.Some? && exists e :: e in es && e in c.value
  {
    ContainsAnyIterable(Some(es))
  }

  /** `doesNotContainAnyOf(Iterable elements)`: non-null and not
      `containsAny(elements)`. */
  function DoesNotContainAnyOfIterable<T(!new, ==)>(elements: Option<seq<Option<T>>>): (r: Pred<Container<T>>)
    ensures forall c :: r(c) <==> c.Some? && forall e :: e in AsStreamIterable(elements) ==> e !in c.value
  {
    And(NotNull(), Not(ContainsAnyIterable(elements)))
  }

  /** `doesNotContainAnyOf(T... elements)`. */
  function DoesNotContainAnyOf<T(!new, ==)>(es: seq<Option<T>>): (r: Pred<Container<T>>)
    ensures forall c :: r(c) <==> c.Some? && forall e :: e in es ==> e !in c.value
  {
    DoesNotContainAnyOfIterable(Some(es))
  }

  /** `doesNotContain(element)`: `doesNotContainAnyOf(element)`. */
  function DoesNotContain<T(!new, ==)>(e: Option<T>): (r: Pred<Container<T>>)
    ensures forall c :: r(c) <==> c.Some? && e !in c.value
  {
    DoesNotContainAnyOf([e])
  }

  // ---------------------------------------------------------------------
  // Laws

  /** `empty()` and `notEmpty()` both reject `null`; on a non-null
      container exactly one of them holds. */
  lemma EmptyAndNotEmptyPartitionNonNull<T(!new)>(c: Container<T>)
    ensures c.None? ==> !Empty()(c) && !NotEmpty()(c)
    ensures c.Some? ==> Empty()(c) != NotEmpty()(c)
    ensures NotEmpty()(c) <==> c.Some? && |c.value| > 0
  {
  }

  /** `contains(e)` is null-safe equality against each element, so it can
      look for `null` itself. */
  lemma ContainsUsesEqualTo<T(!new)>(e: Option<T>, s: seq<Option<T>>)
    ensures Contains(e)(Some(s)) <==> exists i :: 0 <= i < |s| && EqualTo(e)(s[i])
    ensures Contains<T>(None)(Some(s)) <==> None in s
    ensures !Contains(e)(None)
  {
  }

  /** With nothing to look for, `containsAll` degenerates to `notEmpty()`
      and `containsAny` to `never()`. */
  lemma DegenerateArguments<T(!new)>(c: Container<T>)
    ensures ContainsAll([])(c) == NotEmpty()(c)
    ensures !ContainsAny([])(c)
    ensures DoesNotContainAnyOf([])(c) <==> c.Some?
  {
  }

  /** `containsAll` asks only which elements occur, not in which order or
      how often. */
  lemma {:induction false} ContainsAllIgnoresOrder<T(!new)>(es: seq<Option<T>>, s1: seq<Option<T>>, s2: seq<Option<T>>)
    requires forall x :: x in s1 <==> x in s2
    ensures ContainsAll(es)(Some(s1)) == ContainsAll(es)(Some(s2))
  {
    if |s1| > 0 {
      assert s1[0] in s2;
    }
    if |s2| > 0 {
      assert s2[0] in s1;
    }
  }

  /** `doesNotContainAnyOf(es)` is `containsAny(es)` negated on non-null
      containers: `false` on `null` and `true` on an empty container. */
  lemma DoesNotContainAnyOfNegatesContainsAny<T(!new)>(es: seq<Option<T>>, c: Container<T>)
    ensures DoesNotContainAnyOf(es)(c) <==> c.Some? && !ContainsAny(es)(c)
    ensures !DoesNotContainAnyOf(es)(None)
    ensures DoesNotContainAnyOf(es)(Some([]))
  {
  }

  /** `doesNotContain(e)` is `doesNotContainAnyOf(e)`; on a non-null
      container exactly one of `contains(e)` and `doesNotContain(e)` holds,
      and on `null` neither does. */
  lemma ContainsOrDoesNotContain<T(!new)>(e: Option<T>, c: Container<T>)
    ensures DoesNotContain(e)(c) == DoesNotContainAnyOf([e])(c)
    ensures c.Some? ==> Contains(e)(c) != DoesNotContain(e)(c)
    ensures c.None? ==> !Contains(e)(c) && !DoesNotContain(e)(c)
  {
  }

  /** The varargs overloads are the Iterable overloads on the same
      elements, and a `null` Iterable of elements counts as no elements. */
  lemma OverloadsAgree<T(!new)>(es: seq<Option<T>>, c: Container<T>)
    ensures ContainsAll(es)(c) == ContainsAllIterable(Some(es))(c)
    ensures ContainsAny(es)(c) == ContainsAnyIterable(Some(es))(c)
    ensures DoesNotContainAnyOf(es)(c) == DoesNotContainAnyOfIterable(Some(es))(c)
    ensures ContainsAllIterable(None)(c) == ContainsAll([])(c)
    ensures ContainsAnyIterable(None)(c) == ContainsAny([])(c)
    ensures DoesNotContainAnyOfIterable(None)(c) == DoesNotContainAnyOf([])(c)
  {
  }

  /** The membership scenario of the library's documentation: on `[a, b]`,
      `containsAll(a, b)` and `containsAny(c, b)` hold and
      `containsAll(a, c)` does not. */
  lemma MembershipScenario<T(!new)>(a: T, b: T, c: T)
    requires c != a && c != b
    ensures ContainsAll([Some(a), Some(b)])(Some([Some(a), Some(b)]))
    ensures !ContainsAll([Some(a), Some(c)])(Some([Some(a), Some(b)]))
    ensures ContainsAny([Some(c), Some(b)])(Some([Some(a), Some(b)]))
  {
    assert Some(c) in [Some(a), Some(c)];
  }
}
