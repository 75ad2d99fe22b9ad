/** `NOptionalPredicates`: tests on `java.util.Optional`. An optional never
    holds `null`, so `Optional<T>` is `Option<T>` with `Some(v)` for a
    present value; the predicates applied to that value take the nullable
    `Option<T>` that `NPredicates` works on. */
module OptionalPredicates {
  import opened Wrappers
  import opened Predicates
  import opened Seqs

  /** `present()`: `isPresent()`. */
  function Present<T(!new)>(): (r: Pred<Option<T>>)
    ensures forall o :: r(o) <==> o.Some?
  {
    (o: Option<T>) => o.Some?
  }

  /** `empty()`: `not(present())`. */
  function Empty<T(!new)>(): (r: Pred<Option<T>>)
    ensures forall o :: r(o) <==> o.None?
  {
    Not(Present())
  }

  /** `havingValue(predicate)`: `present().and(o -> predicate.test(o.get()))`;
      `get()` runs only on a present optional. */
  function HavingValue<T(!new)>(p: Pred<Option<T>>): (r: Pred<Option<T>>)
    ensures forall o :: r(o) <==> o.Some? && p(Some(o.value))
  {
    And(Present(), (o: Option<T>) => o.Some? && p(Some(o.value)))
  }

  /** `havingValue(value)`: `havingValue(equalTo(value))`. */
  function HavingValueEqual<T(!new, ==)>(v: Option<T>): (r: Pred<Option<T>>)
    ensures forall o :: r(o) <==> o.Some? && v == Some(o.value)
  {
    HavingValue(EqualTo(v))
  }

  /** `notHavingValue(predicate)`: `havingValue(not(predicate))`. */
  function NotHavingValue<T(!new)>(p: Pred<Option<T>>): (r: Pred<Option<T>>)
    ensures forall o :: r(o) <==> o.Some? && !p(Some(o.value))
  {
    HavingValue(Not(p))
  }

  /** `notHavingValue(value)`: `notHavingValue(equalTo(value))`. */
  function NotHavingValueEqual<T(!new, ==)>(v: Option<T>): (r: Pred<Option<T>>)
    ensures forall o :: r(o) <==> o.Some? && v != Some(o.value)
  {
    NotHavingValue(EqualTo(v))
  }

  // ---------------------------------------------------------------------
  // Laws

  /** Exactly one of `present()` and `empty()` holds for every optional. */
  lemma PresentXorEmpty<T(!new)>(o: Option<T>)
    ensures Present()(o) != Empty()(o)
  {
  }

  /** Neither `havingValue(p)` nor `notHavingValue(p)` holds on an empty
      optional, so they are complements only on present ones. */
  lemma HavingValueAndNotHavingValue<T(!new)>(p: Pred<Option<T>>, o: Option<T>)
    ensures !HavingValue(p)(None) && !NotHavingValue(p)(None)
    ensures o.Some? ==> HavingValue(p)(o) != NotHavingValue(p)(o)
    ensures HavingValue(p)(o) || NotHavingValue(p)(o) <==> Present()(o)
  {
  }

  /** An optional's value is never `null`: `havingValue(null)` matches
      nothing and `notHavingValue(null)` every present optional. */
  lemma NullValueMatchesNothing<T(!new)>(o: Option<T>)
    ensures !HavingValueEqual(None)(o)
    ensures NotHavingValueEqual(None)(o) <==> o.Some?
  {
  }

  /** `havingValue(v)` holds on `Optional.of(v)` and on nothing else. */
  lemma HavingValueEqualPicksOne<T(!new)>(v: T, o: Option<T>)
    ensures HavingValueEqual(Some(v))(o) <==> o == Some(v)
    ensures NotHavingValueEqual(Some(v))(o) <==> o.Some? && o != Some(v)
  {
  }

  /** `filter(present())` keeps the present optionals, in order, and
      `map(Optional::get)` then gives their values. */
  lemma {:induction false} FilterPresentKeepsValues<T(!new)>(s: seq<Option<T>>)
    ensures Filter(Present(), s) == Map((x: T) => Some(x), Somes(s))
  {
    if |s| > 0 {
      var init := s[..|s| - 1];
      FilterPresentKeepsValues(init);
      assert forall i :: 0 <= i < |s| - 1 ==> s[i] == init[i];
      var prev := Somes(init);
      if s[|s| - 1].Some? {
        var x := s[|s| - 1].value;
        assert Somes(s) == prev + [x];
        assert Map((x: T) => Some(x), prev + [x]) == Map((x: T) => Some(x), prev) + [Some(x)];
      }
    }
  }
}
