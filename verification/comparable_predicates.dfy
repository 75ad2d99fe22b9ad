/** `NComparablePredicates`: bounds tests built on `compareTo`, here on
    `java.lang.Integer`, whose values are the 32-bit two's-complement
    integers. */
module ComparablePredicates {
  import opened Predicates

  const MinValue: int := -0x8000_0000
  const MaxValue: int := 0x7fff_ffff

  /** A Java `int`. */
  newtype Int32 = x: int | -0x8000_0000 <= x <= 0x7fff_ffff

  /** `Integer.compareTo`, i.e. `Integer.compare`: -1, 0 or 1 by the
      sign of the comparison. It compares, it does not subtract, so it
      cannot overflow. */
  function CompareTo(a: Int32, b: Int32): (c: int)
    ensures c == -1 || c == 0 || c == 1
    ensures c < 0 <==> a < b
    ensures c == 0 <==> a == b
    ensures c > 0 <==> a > b
  {
    if a < b then -1 else if a == b then 0 else 1
  }

  /** `lessThan(other)`: `a.compareTo(other) < 0`. */
  function LessThan(other: Int32): (r: Pred<Int32>)
    ensures forall a :: r(a) <==> a < other
  {
    a => CompareTo(a, other) < 0
  }

  /** `lessThanOrEqualTo(other)`: `a.compareTo(other) <= 0`. */
  function LessThanOrEqualTo(other: Int32): (r: Pred<Int32>)
    ensures forall a :: r(a) <==> a <= other
  {
    a => CompareTo(a, other) <= 0
  }

  /** `greaterThan(other)`: `a.compareTo(other) > 0`. */
  function GreaterThan(other: Int32): (r: Pred<Int32>)
    ensures forall a :: r(a) <==> a > other
  {
    a => CompareTo(a, other) > 0
  }

  /** `greaterThanOrEqualTo(other)`: `a.compareTo(other) >= 0`. */
  function GreaterThanOrEqualTo(other: Int32): (r: Pred<Int32>)
    ensures forall a :: r(a) <==> a >= other
  {
    a => CompareTo(a, other) >= 0
  }

  /** `lt(other)`: `lessThan(other)`. */
  function Lt(other: Int32): (r: Pred<Int32>)
    ensures forall a :: r(a) <==> CompareTo(a, other) < 0
    ensures forall a :: r(a) <==> a < other
  {
    LessThan(other)
  }

  /** `lte(other)`: `lessThanOrEqualTo(other)`. */
  function Lte(other: Int32): (r: Pred<Int32>)
    ensures forall a :: r(a) <==> CompareTo(a, other) <= 0
    ensures forall a :: r(a) <==> a <= other
  {
    LessThanOrEqualTo(other)
  }

  /** `gt(other)`: `greaterThan(other)`. */
  function Gt(other: Int32): (r: Pred<Int32>)
    ensures forall a :: r(a) <==> CompareTo(a, other) > 0
    ensures forall a :: r(a) <==> a > other
  {
    GreaterThan(other)
  }

  /** `gte(other)`: `greaterThanOrEqualTo(other)`. */
  function Gte(other: Int32): (r: Pred<Int32>)
    ensures forall a :: r(a) <==> CompareTo(a, other) >= 0
    ensures forall a :: r(a) <==> a >= other
  {
    GreaterThanOrEqualTo(other)
  }

  // ---------------------------------------------------------------------
  // Laws

  /** `compareTo` is antisymmetric and consistent with equality. */
  lemma CompareToIsAntisymmetric(a: Int32, b: Int32)
    ensures CompareTo(a, b) == -CompareTo(b, a)
    ensures CompareTo(a, a) == 0
  {
  }

  /** The short names are the long ones. */
  lemma ShortNamesAreAliases(other: Int32)
    ensures Lt(other) == LessThan(other) && Lte(other) == LessThanOrEqualTo(other)
    ensures Gt(other) == GreaterThan(other) && Gte(other) == GreaterThanOrEqualTo(other)
  {
  }

  /** `lt(b)` and `gte(b)` split every value between them, as do `lte(b)`
      and `gt(b)`. */
  lemma BoundsAreComplements(b: Int32, a: Int32)
    ensures Lt(b)(a) == Not(Gte(b))(a)
    ensures Lte(b)(a) == Not(Gt(b))(a)
    ensures Lte(b)(a) == (Lt(b)(a) || a == b)
  {
  }

  /** The bound itself is rejected by the strict tests and accepted by the
      others. */
  lemma BoundItself(b: Int32)
    ensures !Lt(b)(b) && !Gt(b)(b) && Lte(b)(b) && Gte(b)(b)
  {
  }

  /** The extreme Java ints against the bound 10: `Integer.MIN_VALUE` is
      below it and `Integer.MAX_VALUE` above it, with no overflow. */
  lemma ExtremesAgainstTen()
    ensures Lt(10)(MinValue as Int32) && Lte(10)(MinValue as Int32)
    ensures !Gt(10)(MinValue as Int32) && !Gte(10)(MinValue as Int32)
    ensures Gt(10)(MaxValue as Int32) && Gte(10)(MaxValue as Int32)
    ensures !Lt(10)(MaxValue as Int32) && !Lte(10)(MaxValue as Int32)
    ensures Lt(10)(9) && !Lt(10)(10) && Gte(10)(10) && Gt(10)(11)
  {
  }
}
