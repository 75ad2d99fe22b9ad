/** The atomic predicate factory and the combinator algebra of
    `NPredicates`, with the `and`/`or` default methods of
    `java.util.function.Predicate` they are built from.

    A Java `Predicate<T>` is a pure total test, `T -> bool`. Where the tested
    value may be `null`, `T` is instantiated with `Option<_>`. */
module Predicates {
  import opened Wrappers

  type Pred<-T> = T -> bool

  /** A Java object reference: `addr` is its identity (what `==` compares),
      `content` is its state (what a structural `equals` compares). */
  datatype Ref<T> = Ref(addr: nat, content: T)

  /** The state behind a possibly-null reference. */
  function Deref<T>(r: Option<Ref<T>>): Option<T>
  {
    match r
    case None => None
    case Some(o) => Some(o.content)
  }

  /** Two references to the same object see the same state. */
  ghost predicate Coherent<T>(a: Option<Ref<T>>, b: Option<Ref<T>>)
  {
    a.Some? && b.Some? && a.value.addr == b.value.addr ==> a.value.content == b.value.content
  }

  // ---------------------------------------------------------------------
  // Predicate.and / Predicate.or and the two constant predicates

  /** `p.and(q)`: short-circuit conjunction. */
  function And<T(!new)>(p: Pred<T>, q: Pred<T>): (r: Pred<T>)
    ensures forall x :: r(x) <==> p(x) && q(x)
    ensures forall x :: !p(x) ==> !r(x)
  {
    x => p(x) && q(x)
  }

  /** `p.or(q)`: short-circuit disjunction. */
  function Or<T(!new)>(p: Pred<T>, q: Pred<T>): (r: Pred<T>)
    ensures forall x :: r(x) <==> p(x) || q(x)
    ensures forall x :: p(x) ==> r(x)
  {
    x => p(x) || q(x)
  }

  /** The identity of `and`. */
  function Always<T>(): Pred<T>
  {
    x => true
  }

  /** `never()`: the identity of `or`, and the seed `containsAny` folds from. */
  function Never<T>(): Pred<T>
  {
    x => false
  }

  /** A test of the value behind a reference, for use as the right operand
      of `notNull().and(...)` or `isNull().or(...)`. Java never evaluates
      that operand on `null`, because `and`/`or` short-circuit; the `false`
      returned here for `None` is therefore never observed. */
  function OnValue<T>(q: Pred<T>): Pred<Option<T>>
  {
    (x: Option<T>) => x.Some? && q(x.value)
  }

  // ---------------------------------------------------------------------
  // Atomic predicates

  /** `is(value)`: reference identity, `x == value`. */
  function Is<T(!new)>(v: Option<Ref<T>>): (r: Pred<Option<Ref<T>>>)
    ensures r(v)
    ensures forall x :: r(x) <==> (x.None? && v.None?) || (x.Some? && v.Some? && x.value.addr == v.value.addr)
  {
    (x: Option<Ref<T>>) =>
      match (x, v)
      case (None, None) => true
      case (Some(a), Some(b)) => a.addr == b.addr
      case _ => false
  }

  /** `equalTo(value)`: `Objects.equals(value, x)`, with `equals` the
      structural equality of the model. */
  function EqualTo<T(!new, ==)>(v: Option<T>): (r: Pred<Option<T>>)
    ensures forall x :: r(x) <==> (x.None? && v.None?) || (x.Some? && v.Some? && x.value == v.value)
  {
    x => v == x
  }

  /** `not(predicate)`. */
  function Not<T(!new)>(p: Pred<T>): (r: Pred<T>)
    ensures forall x :: r(x) != p(x)
  {
    x => !p(x)
  }

  /** `not(T value)`: `not(is(value))`. */
  function NotIs<T(!new)>(v: Option<Ref<T>>): (r: Pred<Option<Ref<T>>>)
    ensures !r(v)
    ensures forall x :: r(x) <==> (x.None? && v.Some?) || (x.Some? && v.None?)
                                  || (x.Some? && v.Some? && x.value.addr != v.value.addr)
  {
    Not(Is(v))
  }

  /** `notEqualTo(value)`: `not(equalTo(value))`. */
  function NotEqualTo<T(!new, ==)>(v: Option<T>): (r: Pred<Option<T>>)
    ensures !r(v)
    ensures forall x :: r(x) <==> x != v
  {
    Not(EqualTo(v))
  }

  /** `isNull()`. */
  function IsNull<T(!new)>(): (r: Pred<Option<T>>)
    ensures forall x :: r(x) <==> x.None?
  {
    (x: Option<T>) => x.None?
  }

  /** `notNull()`: `not(isNull())`. */
  function NotNull<T(!new)>(): (r: Pred<Option<T>>)
    ensures forall x :: r(x) <==> x.Some?
  {
    Not(IsNull())
  }

  /** `having(fn, test)`: `test` applied to `fn(x)`. Both arguments go
      through `Objects.requireNonNull`, so a missing one is a
      NullPointerException when the predicate is built. */
  function Having<T(!new), S>(fn: Option<T -> S>, test: Option<Pred<S>>): (r: Result<Pred<T>>)
    ensures r.Failure? <==> fn.None? || test.None?
    ensures r.Failure? ==> r.error == NullPointer
    ensures r.Success? ==> forall x :: r.value(x) == test.value(fn.value(x))
  {
    if fn.None? then Failure(NullPointer)
    else if test.None? then Failure(NullPointer)
    else Success(x => test.value(fn.value(x)))
  }

  /** `havingEqual(fn, value)`: `equalTo(value)` applied to `fn(x)`; only
      `fn` is checked for `null`, and `fn` may itself return `null`. */
  function HavingEqual<T(!new), S(!new, ==)>(fn: Option<T -> Option<S>>, v: Option<S>): (r: Result<Pred<T>>)
    ensures r.Failure? <==> fn.None?
    ensures r.Failure? ==> r.error == NullPointer
    ensures r.Success? ==> forall x :: r.value(x) <==> fn.value(x) == v
  {
    if fn.None? then Failure(NullPointer)
    else Success(x => EqualTo(v)(fn.value(x)))
  }

  /** `having(fn)`: `having(fn, equalTo(true))` for a `Boolean`-valued `fn`
      that may return `null`. */
  function HavingTrue<T(!new)>(fn: Option<T -> Option<bool>>): (r: Result<Pred<T>>)
    ensures r.Failure? <==> fn.None?
    ensures r.Failure? ==> r.error == NullPointer
    ensures r.Success? ==> forall x :: r.value(x) <==> fn.value(x) == Some(true)
  {
    Having(fn, Some(EqualTo(Some(true))))
  }

  /** `notHaving(fn)`: `having(fn, equalTo(false))`. */
  function NotHaving<T(!new)>(fn: Option<T -> Option<bool>>): (r: Result<Pred<T>>)
    ensures r.Failure? <==> fn.None?
    ensures r.Failure? ==> r.error == NullPointer
    ensures r.Success? ==> forall x :: r.value(x) <==> fn.value(x) == Some(false)
  {
    Having(fn, Some(EqualTo(Some(false))))
  }

  // ---------------------------------------------------------------------
  // allOf / anyOf

  /** The fold of `and` over `ps` seeded with `Always()`, left to right. */
  function Conjunction<T(!new)>(ps: seq<Pred<T>>): (r: Pred<T>)
    ensures forall x :: r(x) <==> forall i :: 0 <= i < |ps| ==> ps[i](x)
  {
    if |ps| == 0 then Always()
    else And(Conjunction(ps[..|ps| - 1]), ps[|ps| - 1])
  }

  /** The fold of `or` over `ps` seeded with `Never()`, left to right. */
  function Disjunction<T(!new)>(ps: seq<Pred<T>>): (r: Pred<T>)
    ensures forall x :: r(x) <==> exists i :: 0 <= i < |ps| && ps[i](x)
  {
    if |ps| == 0 then Never()
    else Or(Disjunction(ps[..|ps| - 1]), ps[|ps| - 1])
  }

  /** `allOf(p1, ..., pn)`: an IllegalArgumentException for no arguments,
      otherwise the conjunction of the arguments. */
  function AllOf<T(!new)>(ps: seq<Pred<T>>): (r: Result<Pred<T>>)
    ensures r.Failure? <==> |ps| == 0
    ensures r.Failure? ==> r.error == IllegalArgument
    ensures r.Success? ==> forall x :: r.value(x) <==> forall i :: 0 <= i < |ps| ==> ps[i](x)
  {
    if |ps| == 0 then Failure(IllegalArgument) else Success(Conjunction(ps))
  }

  /** `anyOf(p1, ..., pn)`: an IllegalArgumentException for no arguments,
      otherwise the disjunction of the arguments. */
  function AnyOf<T(!new)>(ps: seq<Pred<T>>): (r: Result<Pred<T>>)
    ensures r.Failure? <==> |ps| == 0
    ensures r.Failure? ==> r.error == IllegalArgument
    ensures r.Success? ==> forall x :: r.value(x) <==> exists i :: 0 <= i < |ps| && ps[i](x)
  {
    if |ps| == 0 then Failure(IllegalArgument) else Success(Disjunction(ps))
  }

  // ---------------------------------------------------------------------
  // Laws

  /** `is(v)` holds exactly for the same reference, and `is(null)` for
      `null` only. */
  lemma IsIsIdentity<T(!new)>(v: Option<Ref<T>>, x: Option<Ref<T>>)
    ensures Is(v)(x) <==> (x.None? && v.None?) || (x.Some? && v.Some? && x.value.addr == v.value.addr)
    ensures Is(None)(x) <==> x.None?
  {
  }

  /** Identity implies equality for coherent references, but two distinct
      objects with the same state are equal without being identical. */
  lemma IsRefinesEqualTo<T(!new)>(v: Option<Ref<T>>, x: Option<Ref<T>>, c: T)
    requires Coherent(x, v)
    ensures Is(v)(x) ==> EqualTo(Deref(v))(Deref(x))
    ensures EqualTo(Deref(Some(Ref(1, c))))(Deref(Some(Ref(2, c))))
    ensures !Is(Some(Ref(1, c)))(Some(Ref(2, c)))
  {
  }

  /** `equalTo` is null-safe: null matches null only, and two non-null
      values match when they are equal. */
  lemma EqualToIsNullSafe<T(!new)>(a: T, b: T)
    ensures EqualTo<T>(None)(None)
    ensures !EqualTo(None)(Some(b)) && !EqualTo(Some(a))(None)
    ensures EqualTo(Some(a))(Some(b)) <==> a == b
  {
  }

  /** `not` is pointwise negation and therefore an involution. */
  lemma NotIsInvolution<T(!new)>(p: Pred<T>, x: T)
    ensures Not(p)(x) == !p(x)
    ensures Not(Not(p))(x) == p(x)
  {
  }

  /** `notEqualTo(v)` is the complement of `equalTo(v)`; in particular
      `notEqualTo(null)` rejects `null`. */
  lemma NotEqualToComplementsEqualTo<T(!new)>(v: Option<T>, x: Option<T>)
    ensures NotEqualTo(v)(x) <==> !EqualTo(v)(x)
    ensures !NotEqualTo<T>(None)(None)
  {
  }

  /** `not(value)` is the complement of `is(value)`; `not(null)` rejects
      `null`. */
  lemma NotIsComplementsIs<T(!new)>(v: Option<Ref<T>>, x: Option<Ref<T>>)
    ensures NotIs(v)(x) <==> !Is(v)(x)
    ensures !NotIs<T>(None)(None)
  {
  }

  /** Exactly one of `isNull()` and `notNull()` holds of any value. */
  lemma NullChecksPartition<T(!new)>(x: Option<T>)
    ensures IsNull()(x) != NotNull()(x)
    ensures NotNull()(x) <==> x.Some?
  {
  }

  /** `having(fn)` holds only when `fn` returns exactly `true`, and
      `notHaving(fn)` only when it returns exactly `false`; they never hold
      together and both fail on a `null` result. */
  lemma HavingTrueAndNotHaving<T(!new)>(fn: T -> Option<bool>, x: T)
    ensures HavingTrue(Some(fn)).Success? && NotHaving(Some(fn)).Success?
    ensures HavingTrue(Some(fn)).value(x) <==> fn(x) == Some(true)
    ensures NotHaving(Some(fn)).value(x) <==> fn(x) == Some(false)
    ensures !(HavingTrue(Some(fn)).value(x) && NotHaving(Some(fn)).value(x))
    ensures fn(x).None? ==> !HavingTrue(Some(fn)).value(x) && !NotHaving(Some(fn)).value(x)
    ensures HavingTrue<T>(None) == Failure(NullPointer) && NotHaving<T>(None) == Failure(NullPointer)
  {
  }

  /** `havingEqual(fn, v)` is `having(fn, equalTo(v))` whenever `fn` is
      supplied. */
  lemma HavingEqualIsHavingEqualTo<T(!new), S(!new)>(fn: T -> Option<S>, v: Option<S>, x: T)
    ensures HavingEqual(Some(fn), v).Success?
    ensures Having(Some(fn), Some(EqualTo(v))).Success?
    ensures HavingEqual(Some(fn), v).value(x) == Having(Some(fn), Some(EqualTo(v))).value(x)
  {
  }

  /** A single-argument `allOf` is its argument, and `allOf` commutes. */
  lemma AllOfSingletonAndCommutative<T(!new)>(p: Pred<T>, q: Pred<T>, x: T)
    ensures AllOf([p]).Success? && AllOf([p]).value(x) == p(x)
    ensures AllOf([p, q]).Success? && AllOf([q, p]).Success?
    ensures AllOf([p, q]).value(x) == AllOf([q, p]).value(x)
  {
    assert AllOf([p, q]).value(x) <==> p(x) && q(x) by {
      assert [p, q][0] == p && [p, q][1] == q;
    }
    assert AllOf([q, p]).value(x) <==> q(x) && p(x) by {
      assert [q, p][0] == q && [q, p][1] == p;
    }
  }

  /** `always()` is the identity of `allOf` and `never()` that of `anyOf`. */
  lemma ConstantsAreIdentities<T(!new)>(p: Pred<T>, x: T)
    ensures AllOf([Always(), p]).Success? && AllOf([Always(), p]).value(x) == p(x)
    ensures AnyOf([Never(), p]).Success? && AnyOf([Never(), p]).value(x) == p(x)
  {
    assert [Always(), p][1] == p;
    assert [Never(), p][1] == p;
  }

  /** De Morgan: `not(allOf(p, q))` is `anyOf(not(p), not(q))`. */
  lemma DeMorgan<T(!new)>(p: Pred<T>, q: Pred<T>, x: T)
    ensures AllOf([p, q]).Success? && AnyOf([Not(p), Not(q)]).Success?
    ensures Not(AllOf([p, q]).value)(x) == AnyOf([Not(p), Not(q)]).value(x)
  {
    assert [p, q][0] == p && [p, q][1] == q;
    assert [Not(p), Not(q)][0] == Not(p) && [Not(p), Not(q)][1] == Not(q);
  }
}
