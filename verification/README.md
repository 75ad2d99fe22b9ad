# java8-utils in Dafny

A functional model of the core of Nitor Creations' `java8-utils`, a small
Java 8 library with two parts.

- An algebra of single-argument predicates: `NPredicates`,
  `NCollectionPredicates`, `NStringPredicates`, `NOptionalPredicates`, and
  the `NComparablePredicates` kept in the test tree.
- Data-shaping helpers over streams, maps and sets: `NStreams`,
  `NStreamsUtils`, `NCollectors`, `NMaps`, `NSets`, `NitorMappers` and
  `NitorExtractors`.

Modelling conventions:

- A `java.util.function.Predicate<T>` is a Dafny function value
  `T -> bool`.
- A Java reference that may be `null` is an `Option<T>`. This applies to
  the tested value, to collection elements, to map values and to the
  arguments whose `null` the code reacts to.
- A Java exception is the `Failure` case of a `Result`. The `Error` it
  carries names the exception class.
- A stream, list, iterable or iterator is the `seq` of its elements.
- A Java `Map` is the sequence of its entries in iteration order, with
  distinct keys. Collecting entries gives a Dafny `map`.
- A `String` is a `seq<char>`. `trim()` removes the chars up to U+0020
  at both ends.

One module per Java class. Three modules are shared:

- `Wrappers`: `Option`, `Error` and `Result`.
- `Seqs`: map, filter, flatten, reduce and distinct over sequences.
- `Entries`: map entries and the views of an entry list that the map
  helpers are specified by.

Each module pairs the operations with lemmas about them. The lemmas cover
identities between predicates, complements, the error cases, round trips,
and the test scenarios of the library stated for all inputs.

## Model

| member | source | states |
|---|---|---|
| Predicates.IsIsIdentity | src/main/java/com/nitorcreations/predicates/NPredicates.java:33-35 | `is(v)` accepts exactly the same reference as `v` (or `null` when `v` is `null`), and `is(null)` accepts only `null` |
| Predicates.IsRefinesEqualTo | src/main/java/com/nitorcreations/predicates/NPredicates.java:33-45 | an identical reference is also equal, but two distinct objects with equal contents are equal without being identical |
| Predicates.EqualToIsNullSafe | src/main/java/com/nitorcreations/predicates/NPredicates.java:43-45 | `equalTo` is true on `null` against `null`, false when exactly one side is `null`, and otherwise is value equality |
| Predicates.NotIsInvolution | src/main/java/com/nitorcreations/predicates/NPredicates.java:53-55 | `not(p)` negates `p` on every input, so `not(not(p))` agrees with `p` |
| Predicates.NotIsComplementsIs | src/main/java/com/nitorcreations/predicates/NPredicates.java:63-65 | `not(value)` is the complement of `is(value)`, so `not(null)` rejects `null` |
| Predicates.NotEqualToComplementsEqualTo | src/main/java/com/nitorcreations/predicates/NPredicates.java:73-75 | `notEqualTo(v)` is the complement of `equalTo(v)`, so `notEqualTo(null)` rejects `null` |
| Predicates.NullChecksPartition | src/main/java/com/nitorcreations/predicates/NPredicates.java:82-93 | exactly one of `isNull()` and `notNull()` holds on every value, and `notNull()` holds exactly on non-null values |
| Predicates.Having | src/main/java/com/nitorcreations/predicates/NPredicates.java:103-107 | a `null` function or test is a NullPointerException; otherwise the predicate is the test applied to the projected value |
| Predicates.HavingEqual | src/main/java/com/nitorcreations/predicates/NPredicates.java:117-120 | only a `null` function is an error; otherwise the predicate holds exactly when the projection equals the value, with `null` handled null-safely |
| Predicates.HavingEqualIsHavingEqualTo | src/main/java/com/nitorcreations/predicates/NPredicates.java:103-120 | `havingEqual(fn, v)` is the same predicate as `having(fn, equalTo(v))` |
| Predicates.HavingTrueAndNotHaving | src/main/java/com/nitorcreations/predicates/NPredicates.java:130-144 | `having(fn)` holds only when `fn` returns `true` and `notHaving(fn)` only when it returns `false`; they never both hold, both reject a `null` result, and a `null` function is an error |
| Predicates.AllOf | src/test/java/com/nitorcreations/predicates/NPredicatesTest.java:119-136 | with no predicates it is an IllegalArgumentException; otherwise it holds exactly when every predicate holds |
| Predicates.AnyOf | src/test/java/com/nitorcreations/predicates/NPredicatesTest.java:126-141 | with no predicates it is an IllegalArgumentException; otherwise it holds exactly when some predicate holds |
| Predicates.AllOfSingletonAndCommutative | src/test/java/com/nitorcreations/predicates/NPredicatesTest.java:119-124 | `allOf(p)` is `p`, and the order of the conjuncts does not matter |
| Predicates.ConstantsAreIdentities | src/main/java/com/nitorcreations/predicates/NCollectionPredicates.java:87-92 | a constant-true conjunct and a constant-false (`never()`) disjunct change nothing, which makes `never()` the identity of an `or` fold |
| Predicates.DeMorgan | src/test/java/com/nitorcreations/predicates/NPredicatesTest.java:119-131 | the negation of `allOf(p, q)` is `anyOf(not(p), not(q))` |
| Predicates.And | src/main/java/com/nitorcreations/predicates/NCollectionPredicates.java:21 | `p.and(q)`, the conjunction every null-guarded predicate is built with, holds exactly when both hold, so a failing left operand such as `notNull()` on `null` decides the result |
| Predicates.Or | src/main/java/com/nitorcreations/predicates/NCollectionPredicates.java:90 | `p1.or(p2)` holds exactly when either holds, so a holding left operand decides the result |
| Predicates.Is | src/main/java/com/nitorcreations/predicates/NPredicates.java:33-35 | accepts the given reference itself (`null` when given `null`) and no other reference, however equal its contents |
| Predicates.EqualTo | src/main/java/com/nitorcreations/predicates/NPredicates.java:43-45 | null-safe equality: `null` matches only `null`, and two non-null values match when they are equal |
| Predicates.Not | src/main/java/com/nitorcreations/predicates/NPredicates.java:53-55 | the negated predicate differs from the original on every input |
| Predicates.NotIs | src/main/java/com/nitorcreations/predicates/NPredicates.java:63-65 | rejects the given reference and accepts every other one: `null` against a non-null value, a non-null value against `null`, and a different object |
| Predicates.NotEqualTo | src/main/java/com/nitorcreations/predicates/NPredicates.java:73-75 | rejects the given value and accepts exactly the values not equal to it, `null` included |
| Predicates.IsNull | src/main/java/com/nitorcreations/predicates/NPredicates.java:82-84 | holds exactly on `null` |
| Predicates.NotNull | src/main/java/com/nitorcreations/predicates/NPredicates.java:91-93 | holds exactly on non-null values |
| Predicates.HavingTrue | src/main/java/com/nitorcreations/predicates/NPredicates.java:130-132 | a `null` function is a NullPointerException; otherwise the predicate holds exactly when `fn` returns `true`, not `false` or `null` |
| Predicates.NotHaving | src/main/java/com/nitorcreations/predicates/NPredicates.java:142-144 | a `null` function is a NullPointerException; otherwise the predicate holds exactly when `fn` returns `false`, not `true` or `null` |
| CollectionPredicates.EmptyAndNotEmptyPartitionNonNull | src/main/java/com/nitorcreations/predicates/NCollectionPredicates.java:20-32 | both `empty()` and `notEmpty()` reject a `null` collection, and exactly one of them holds on any other |
| CollectionPredicates.NotEmpty | src/main/java/com/nitorcreations/predicates/NCollectionPredicates.java:20-22 | holds exactly on a non-null collection with at least one element |
| CollectionPredicates.Empty | src/main/java/com/nitorcreations/predicates/NCollectionPredicates.java:30-32 | holds exactly on a non-null collection with no elements |
| CollectionPredicates.Contains | src/main/java/com/nitorcreations/predicates/NCollectionPredicates.java:40-42 | holds exactly when the collection is non-null and has the element, where a `null` element is searched for like any other |
| CollectionPredicates.ContainsUsesEqualTo | src/main/java/com/nitorcreations/predicates/NCollectionPredicates.java:40-42 | membership is a search with the null-safe `equalTo`, so `contains(null)` finds a `null` element |
| CollectionPredicates.ContainsEach | src/main/java/com/nitorcreations/predicates/NCollectionPredicates.java:62-67 | the `and` fold of `contains` over the elements, seeded with `notEmpty()`, holds exactly on a non-null, non-empty collection holding every element |
| CollectionPredicates.ContainsSome | src/main/java/com/nitorcreations/predicates/NCollectionPredicates.java:87-92 | the `or` fold of `contains` over the elements, seeded with `never()`, holds exactly on a non-null collection holding some element |
| CollectionPredicates.ContainsAllIterable | src/main/java/com/nitorcreations/predicates/NCollectionPredicates.java:62-67 | holds on a non-null, non-empty collection holding every element of the iterable; a `null` iterable has no elements |
| CollectionPredicates.ContainsAll | src/main/java/com/nitorcreations/predicates/NCollectionPredicates.java:51-53 | holds on a non-null, non-empty collection holding every listed element |
| CollectionPredicates.ContainsAnyIterable | src/main/java/com/nitorcreations/predicates/NCollectionPredicates.java:87-92 | holds on a non-null collection holding some element of the iterable |
| CollectionPredicates.ContainsAny | src/main/java/com/nitorcreations/predicates/NCollectionPredicates.java:76-78 | holds on a non-null collection holding some listed element |
| CollectionPredicates.DoesNotContain | src/main/java/com/nitorcreations/predicates/NCollectionPredicates.java:101-103 | holds on a non-null collection that lacks the element |
| CollectionPredicates.DoesNotContainAnyOfIterable | src/main/java/com/nitorcreations/predicates/NCollectionPredicates.java:124-126 | holds on a non-null collection that lacks every element of the iterable |
| CollectionPredicates.DoesNotContainAnyOf | src/main/java/com/nitorcreations/predicates/NCollectionPredicates.java:113-115 | holds on a non-null collection that lacks every listed element |
| CollectionPredicates.DegenerateArguments | src/main/java/com/nitorcreations/predicates/NCollectionPredicates.java:62-126 | with no elements, `containsAll` is `notEmpty()`, `containsAny` rejects everything and `doesNotContainAnyOf` accepts every non-null collection |
| CollectionPredicates.ContainsAllIgnoresOrder | src/test/java/com/nitorcreations/predicates/NCollectionPredicatesTest.java:45-52 | `containsAll` gives the same answer on any two collections with the same members, whatever their order or repetitions |
| CollectionPredicates.DoesNotContainAnyOfNegatesContainsAny | src/main/java/com/nitorcreations/predicates/NCollectionPredicates.java:124-126 | `doesNotContainAnyOf` is `containsAny` negated on non-null collections; it rejects `null` and accepts the empty collection |
| CollectionPredicates.ContainsOrDoesNotContain | src/main/java/com/nitorcreations/predicates/NCollectionPredicates.java:101-103 | `doesNotContain(e)` is `doesNotContainAnyOf(e)`; exactly one of it and `contains(e)` holds on a non-null collection, and neither holds on `null` |
| CollectionPredicates.OverloadsAgree | src/main/java/com/nitorcreations/predicates/NCollectionPredicates.java:51-126 | each varargs overload is the Iterable overload on the same elements, and a `null` Iterable behaves as an empty argument list |
| CollectionPredicates.MembershipScenario | src/test/java/com/nitorcreations/predicates/NCollectionPredicatesTest.java:45-61 | on a collection of two values, `containsAll` of both holds, `containsAll` with a missing value fails, and `containsAny` with one present value holds |
| StringPredicates.Trim | src/main/java/com/nitorcreations/predicates/NStringPredicates.java:41-43 | the trimmed string is empty exactly when every char is at most U+0020, and otherwise starts and ends with a char above U+0020 |
| StringPredicates.ContainsEvery | src/main/java/com/nitorcreations/predicates/NStringPredicates.java:71-77 | true exactly when every listed string occurs somewhere in the string |
| StringPredicates.ContainsSomeOf | src/main/java/com/nitorcreations/predicates/NStringPredicates.java:85-90 | true exactly when some listed string occurs somewhere in the string |
| StringPredicates.StartsWith | src/main/java/com/nitorcreations/predicates/NStringPredicates.java:20-22 | rejects `null` and otherwise holds exactly when the prefix is a prefix of the string |
| StringPredicates.EndsWith | src/main/java/com/nitorcreations/predicates/NStringPredicates.java:31-33 | rejects `null` and otherwise holds exactly when the suffix ends the string |
| StringPredicates.IsBlank | src/main/java/com/nitorcreations/predicates/NStringPredicates.java:41-43 | holds on `null` and on exactly the strings made only of chars up to U+0020 |
| StringPredicates.NotBlank | src/main/java/com/nitorcreations/predicates/NStringPredicates.java:51-53 | holds exactly on a non-null string with some char above U+0020 |
| StringPredicates.Contains | src/main/java/com/nitorcreations/predicates/NStringPredicates.java:61-63 | holds exactly on a non-null string that has the substring; a `null` substring is skipped, so then every non-null string is accepted |
| StringPredicates.DoesNotContain | src/main/java/com/nitorcreations/predicates/NStringPredicates.java:99-101 | holds exactly on a non-null string that lacks the substring; a `null` substring excludes nothing |
| StringPredicates.ContainsAll | src/main/java/com/nitorcreations/predicates/NStringPredicates.java:71-77 | rejects `null`; skips `null` entries; otherwise holds when every remaining entry is a substring |
| StringPredicates.ContainsAny | src/main/java/com/nitorcreations/predicates/NStringPredicates.java:85-90 | rejects `null`; skips `null` entries; otherwise holds when some remaining entry is a substring |
| StringPredicates.DoesNotContainAnyOf | src/main/java/com/nitorcreations/predicates/NStringPredicates.java:110-112 | rejects `null`; otherwise holds when no non-null entry is a substring |
| StringPredicates.AffixTestsRejectNull | src/test/java/com/nitorcreations/predicates/NStringPredicatesTest.java:18-30 | `startsWith` and `endsWith` reject `null`, `startsWith(p)` is the prefix order, and `p + s` starts with `p` while `s + p` ends with it |
| StringPredicates.BlankTests | src/main/java/com/nitorcreations/predicates/NStringPredicates.java:41-53 | `isBlank` holds on `null` and on strings that trim to empty, and `notBlank` is its exact complement, so it rejects `null` |
| StringPredicates.VisibleCharIsNotBlank | src/test/java/com/nitorcreations/predicates/NStringPredicatesTest.java:39-44 | a string with any char above U+0020 is not blank |
| StringPredicates.DegenerateSubstringLists | src/test/java/com/nitorcreations/predicates/NStringPredicatesTest.java:60-72 | an empty or all-`null` list makes `containsAll` accept every non-null string and `containsAny` reject everything; `contains(null)` accepts every non-null string |
| StringPredicates.ContainsIsSingletonContainsAll | src/main/java/com/nitorcreations/predicates/NStringPredicates.java:61-63 | `contains(sub)` is `containsAll(sub)`, i.e. the string is non-null and has `sub` as a substring |
| StringPredicates.DoesNotContainNegatesContainsAny | src/main/java/com/nitorcreations/predicates/NStringPredicates.java:99-112 | `doesNotContainAnyOf` is `containsAny` negated on non-null strings and rejects `null`; `doesNotContain(sub)` is `doesNotContainAnyOf(sub)` |
| StringPredicates.FoobarScenario | src/test/java/com/nitorcreations/predicates/NStringPredicatesTest.java:18-86 | `"foobar"` starts with `"foo"`, does not contain `"baz"` and is not blank, while `null` is blank |
| OptionalPredicates.Empty | src/main/java/com/nitorcreations/predicates/NOptionalPredicates.java:34-36 | holds exactly on an empty optional |
| OptionalPredicates.HavingValue | src/main/java/com/nitorcreations/predicates/NOptionalPredicates.java:55-57 | holds when the optional is present and the predicate holds on its value |
| OptionalPredicates.HavingValueEqual | src/main/java/com/nitorcreations/predicates/NOptionalPredicates.java:65-67 | holds when the optional is present and its value equals the given one |
| OptionalPredicates.NotHavingValue | src/main/java/com/nitorcreations/predicates/NOptionalPredicates.java:75-77 | holds when the optional is present and the predicate fails on its value |
| OptionalPredicates.NotHavingValueEqual | src/main/java/com/nitorcreations/predicates/NOptionalPredicates.java:85-87 | holds when the optional is present and its value differs from the given one |
| OptionalPredicates.PresentXorEmpty | src/test/java/com/nitorcreations/predicates/NOptionalPredicatesTest.java:43-51 | exactly one of `present()` and `empty()` holds on every optional |
| OptionalPredicates.HavingValueAndNotHavingValue | src/main/java/com/nitorcreations/predicates/NOptionalPredicates.java:55-77 | both reject an empty optional, so they are not complements; on a present one exactly one holds, and one of them holds exactly when the optional is present |
| OptionalPredicates.NullValueMatchesNothing | src/test/java/com/nitorcreations/predicates/NOptionalPredicatesTest.java:53-67 | `havingValue(null)` matches no optional and `notHavingValue(null)` matches every present one |
| OptionalPredicates.HavingValueEqualPicksOne | src/main/java/com/nitorcreations/predicates/NOptionalPredicates.java:65-87 | `havingValue(v)` matches exactly the optional of `v`, and `notHavingValue(v)` every other present optional |
| OptionalPredicates.FilterPresentKeepsValues | src/test/java/com/nitorcreations/predicates/NOptionalPredicatesTest.java:69-76 | filtering by `present()` keeps exactly the present optionals, in order |
| ComparablePredicates.CompareTo | src/test/java/com/nitorcreations/predicates/NComparablePredicates.java:15-87 | `Integer.compareTo` returns -1, 0 or 1, negative exactly below, zero exactly at and positive exactly above the other value |
| ComparablePredicates.LessThan | src/test/java/com/nitorcreations/predicates/NComparablePredicates.java:35-37 | holds exactly on values below the bound |
| ComparablePredicates.LessThanOrEqualTo | src/test/java/com/nitorcreations/predicates/NComparablePredicates.java:45-47 | holds exactly on values up to the bound |
| ComparablePredicates.GreaterThan | src/test/java/com/nitorcreations/predicates/NComparablePredicates.java:75-77 | holds exactly on values above the bound |
| ComparablePredicates.GreaterThanOrEqualTo | src/test/java/com/nitorcreations/predicates/NComparablePredicates.java:85-87 | holds exactly on values from the bound up |
| ComparablePredicates.Lt | src/test/java/com/nitorcreations/predicates/NComparablePredicates.java:15-17 | holds exactly when `compareTo` against the bound is negative, that is exactly on values below the bound |
| ComparablePredicates.Lte | src/test/java/com/nitorcreations/predicates/NComparablePredicates.java:25-27 | holds exactly when `compareTo` against the bound is not positive, that is exactly on values up to the bound |
| ComparablePredicates.Gt | src/test/java/com/nitorcreations/predicates/NComparablePredicates.java:55-57 | holds exactly when `compareTo` against the bound is positive, that is exactly on values above the bound |
| ComparablePredicates.Gte | src/test/java/com/nitorcreations/predicates/NComparablePredicates.java:65-67 | holds exactly when `compareTo` against the bound is not negative, that is exactly on values from the bound up |
| ComparablePredicates.CompareToIsAntisymmetric | src/test/java/com/nitorcreations/predicates/NComparablePredicates.java:15-87 | swapping the operands negates the comparison, and a value compares equal to itself |
| ComparablePredicates.ShortNamesAreAliases | src/test/java/com/nitorcreations/predicates/NComparablePredicates.java:15-87 | `lt`, `lte`, `gt` and `gte` are the same predicates as their long-named forms |
| ComparablePredicates.BoundsAreComplements | src/test/java/com/nitorcreations/predicates/NComparablePredicates.java:35-87 | `lt(b)` is the complement of `gte(b)`, `lte(b)` the complement of `gt(b)`, and `lte(b)` is `lt(b)` or equality |
| ComparablePredicates.BoundItself | src/test/java/com/nitorcreations/predicates/NComparablePredicatesTest.java:18-44 | the bound is rejected by the strict tests and accepted by the others |
| ComparablePredicates.ExtremesAgainstTen | src/test/java/com/nitorcreations/predicates/NComparablePredicatesTest.java:18-44 | `Integer.MIN_VALUE` and `Integer.MAX_VALUE` compare below and above the bound 10 without overflow, and 9, 10 and 11 fall on the expected sides |
| Streams.AsStreamOptional | src/main/java/com/nitorcreations/streams/NStreams.java:35-37 | the stream of an optional has at most one element, and has one exactly when the optional is present |
| Streams.AsStreamOptionalRoundTrip | src/main/java/com/nitorcreations/streams/NStreams.java:35-37 | `findFirst` of the stream gives back the optional |
| Streams.AsStreamOptionalContents | src/test/java/com/nitorcreations/streams/NStreamsTest.java:39-49 | a present optional streams its value and an empty one streams nothing |
| Streams.AsStreamIterable | src/main/java/com/nitorcreations/streams/NStreams.java:67-82 | a `null` iterable streams nothing |
| Streams.AsStreamIterator | src/main/java/com/nitorcreations/streams/NStreams.java:46-59 | the stream has exactly the iterator's remaining elements, in order |
| Streams.IterableAndIteratorAgree | src/main/java/com/nitorcreations/streams/NStreams.java:46-82 | an iterable and an iterator both stream their elements in order |
| Streams.Concat | src/main/java/com/nitorcreations/streams/NStreams.java:92-96 | with no non-null argument it is a NoSuchElementException; otherwise it is the non-null arguments joined in order |
| Streams.ConcatOfEmptyStreams | src/test/java/com/nitorcreations/streams/NStreamsTest.java:65-71 | joining any positive number of empty streams gives the empty stream, and no arguments is an error |
| Streams.ConcatSkipsNull | src/main/java/com/nitorcreations/streams/NStreams.java:92-96 | a `null` argument anywhere changes nothing |
| StreamsUtils.Concat | src/main/java/com/nitorcreations/streams/NStreamsUtils.java:8-10 | no arguments is a NoSuchElementException, any `null` argument is a NullPointerException, and otherwise it is the arguments joined in order |
| StreamsUtils.ReduceJoinNonNull | src/main/java/com/nitorcreations/streams/NStreamsUtils.java:9 | the reduce over `Stream::concat` yields the joined streams when all are non-null and the NullPointerException marker otherwise |
| StreamsUtils.AgreesWithNullSkippingConcat | src/main/java/com/nitorcreations/streams/NStreamsUtils.java:8-10 | on non-null arguments it is the same as `NStreams.concat` |
| StreamsUtils.NullArgumentIsAnError | src/main/java/com/nitorcreations/streams/NStreamsUtils.java:9 | a `null` argument fails here but is skipped by `NStreams.concat` |
| Collectors.EntriesToMap | src/main/java/com/nitorcreations/streams/NCollectors.java:49-54 | succeeds exactly when the keys are distinct and no value is `null`; the first offending entry decides between IllegalStateException and NullPointerException; the map holds exactly the entries |
| Collectors.FirstOffenceDecides | src/test/java/com/nitorcreations/streams/NCollectorsTest.java:61-64 | the error comes from the first offending entry, whether a `null` value or a repeated key |
| Collectors.MergeInto | src/main/java/com/nitorcreations/streams/NCollectors.java:64-70 | a new key is added with its value, an existing key gets `merge(old, new)`, and every other key is unchanged |
| Collectors.EntriesToMapMerge | src/main/java/com/nitorcreations/streams/NCollectors.java:64-70 | never fails on repeated keys; a `null` value is a NullPointerException; the keys are those of the entries |
| Collectors.MergeFoldsValues | src/main/java/com/nitorcreations/streams/NCollectors.java:64-70 | each key maps to the left fold with `merge` of its values in encounter order |
| Collectors.MergeOnlyMattersForRepeatedKeys | src/main/java/com/nitorcreations/streams/NCollectors.java:49-70 | without repeated keys both collectors give the same map, and only repeated keys make the plain one fail |
| Collectors.MergeSnoc | src/main/java/com/nitorcreations/streams/NCollectors.java:64-70 | collecting one more entry merges it into the map collected so far |
| Collectors.SummingScenario | src/test/java/com/nitorcreations/streams/NCollectorsTest.java:66-74 | for entries `a:x, b:y, a:z` the merged map is `a: merge(x, z), b: y` |
| Collectors.SummingEkaToka | src/test/java/com/nitorcreations/streams/NCollectorsTest.java:61-74 | the fixture entries `Eka:1, Eka:2, Eka:3, Toka:4, Kolmas:5` (src/test/java/com/nitorcreations/streams/Fixture.java:44-50) summed give the three keys `Eka:6, Toka:4, Kolmas:5`, and without a merge function the repeated `Eka` is an IllegalStateException |
| Collectors.Occurrences | src/main/java/com/nitorcreations/streams/NCollectors.java:37-39 | the keys are exactly the elements, and each maps to its number of occurrences, which is at least 1 |
| Collectors.CountsSumToLength | src/main/java/com/nitorcreations/streams/NCollectors.java:37-39 | the counts over the distinct elements sum to the length of the input |
| Collectors.CountingScenario | src/test/java/com/nitorcreations/streams/NCollectorsTest.java:39-55 | the empty input gives the empty map, and the fixture list `Foo, Bar, Baz, Qux, Foo, Foo, Foo, Baz` (src/test/java/com/nitorcreations/streams/Fixture.java:32) gives the four keys `Foo:4, Bar:1, Baz:2, Qux:1` |
| Collectors.CountingFourValues | src/test/java/com/nitorcreations/streams/NCollectorsTest.java:39-48 | any four different values in the fixture list's arrangement are counted 4, 1, 2 and 1 |
| Mappers.MappingValueKeepsKeys | src/test/java/com/nitorcreations/streams/NMappersTest.java:41-50 | mapping the values of entries keeps the key order and key set, and so keeps keys distinct |
| Mappers.CollectingMappedValues | src/test/java/com/nitorcreations/streams/NMappersTest.java:41-50 | collecting a map's entries after `mappingValue` succeeds, has the same keys, and maps each key to `f(key, value)` |
| Mappers.CollectingMappedKeys | src/test/java/com/nitorcreations/streams/NMappersTest.java:52-61 | collecting a map's entries after `mappingKey` succeeds exactly when no value is `null` and the new keys are pairwise distinct; every new key then maps to the value it came with, and there is no other key |
| Mappers.MappingEntryInOrder | src/test/java/com/nitorcreations/streams/NMappersTest.java:63-70 | `mappingEntry` over a map's entries gives `f` of each entry in the map's order |
| Maps.MapOfEntries | src/main/java/com/nitorcreations/streams/NMaps.java:29-31 | succeeds exactly on distinct keys and non-null values, gives the empty map for no entries, and holds exactly the entries |
| Maps.Mapping | src/main/java/com/nitorcreations/streams/NMaps.java:43-47 | a `null` value from the function is a NullPointerException; otherwise the domain is the key set and each key maps to `fn(key)` |
| Maps.MapOfLists | src/main/java/com/nitorcreations/streams/NMaps.java:61-68 | a `null` list is a NullPointerException and a size mismatch an IllegalArgumentException; success needs distinct keys and non-null values; `keys[i]` maps to `values[i]` |
| Maps.Combine | src/main/java/com/nitorcreations/streams/NMaps.java:79-83 | succeeds exactly when no key is shared and no value is `null`, and is then the union of the maps |
| Maps.CombineWith | src/main/java/com/nitorcreations/streams/NMaps.java:94-98 | fails only on a `null` value, and its keys are the union of the maps' keys |
| Maps.CombineFoldsInMapOrder | src/main/java/com/nitorcreations/streams/NMaps.java:94-98 | each key maps to the fold with `merge` of its values in the order of the maps |
| Maps.CombineAndSkip | src/main/java/com/nitorcreations/streams/NMaps.java:109-111 | fails only on a `null` value, and its keys are the union of the maps' keys |
| Maps.CombineAndSkipKeepsFirst | src/main/java/com/nitorcreations/streams/NMaps.java:109-111 | each key maps to its value in the first map that has it |
| Maps.CombineDisjointSize | src/main/java/com/nitorcreations/streams/NMaps.java:79-83 | combining maps with disjoint keys succeeds with as many keys as the maps have entries together |
| Maps.CombineSharedKeyFails | src/test/java/com/nitorcreations/collections/NMapsTest.java:78-81 | two maps sharing a key cannot be combined: IllegalStateException |
| Maps.CombineSharedKeyMerges | src/test/java/com/nitorcreations/collections/NMapsTest.java:83-94 | for a key in two maps, `combine(mergeFn, ...)` maps it to `mergeFn(first, second)` and `combineAndSkip` to the first value |
| Maps.MapOf | src/main/java/com/nitorcreations/streams/NMaps.java:121-384 | for 1 to 10 pairs, succeeds exactly when `mapOfEntries` does and then agrees with it; a `null` value is a NullPointerException before a repeated key is an IllegalStateException |
| Maps.MapOfDistinctKeys | src/test/java/com/nitorcreations/collections/NMapsTest.java:230-244 | n pairs with distinct keys and non-null values give a map of size n in which each key maps to its value |
| Sets.AsSet | src/main/java/com/nitorcreations/collections/NSets.java:23-26 | the members are exactly the arguments, and the size is the number of distinct arguments |
| Sets.AsSetIterable | src/main/java/com/nitorcreations/collections/NSets.java:35-37 | a `null` iterable gives the empty set; otherwise the members are exactly its elements |
| Sets.AsSetIterator | src/main/java/com/nitorcreations/collections/NSets.java:46-48 | the members are exactly the iterator's remaining elements |
| Sets.OverloadsAgree | src/main/java/com/nitorcreations/collections/NSets.java:23-48 | the Iterable and Iterator overloads agree with the varargs one on the same elements |
| Sets.NullIsAMember | src/test/java/com/nitorcreations/collections/NSetsTest.java:26-30 | repeated `null`s collapse into one ordinary member |
| Sets.AsSetOfSnoc | src/main/java/com/nitorcreations/collections/NSets.java:23-26 | one more argument adds it as a member, and grows the set exactly when it is new |
| Extractors.DoWithKeys | src/main/java/com/nitorcreations/streams/NitorExtractors.java:32-34 | a `null` map is a NullPointerException; otherwise it is `fn` of each key in map order |
| Extractors.ExtractKeysToList | src/main/java/com/nitorcreations/streams/NitorExtractors.java:40-42 | a `null` map is a NullPointerException; otherwise the list has one `fn(key)` per entry, in order |
| Extractors.ExtractKeysToSet | src/main/java/com/nitorcreations/streams/NitorExtractors.java:36-38 | a `null` map is a NullPointerException; otherwise the set is the image of the keys under `fn` |
| Extractors.DoWithValues | src/main/java/com/nitorcreations/streams/NitorExtractors.java:44-46 | a `null` map is a NullPointerException; otherwise it is `fn` of each value in map order |
| Extractors.ExtractValuesToList | src/main/java/com/nitorcreations/streams/NitorExtractors.java:52-54 | a `null` map is a NullPointerException; otherwise the list has one `fn(value)` per entry, in order |
| Extractors.ExtractValuesToSet | src/main/java/com/nitorcreations/streams/NitorExtractors.java:48-50 | a `null` map is a NullPointerException; otherwise the set is the image of the values under `fn` |
| Extractors.EmptyAndNullMaps | src/test/java/com/nitorcreations/streams/NExtractorsTest.java:41-90 | an empty map gives an empty list or set from all four extractors, and a `null` map is a NullPointerException for all four |
| Extractors.SetIsListMembers | src/main/java/com/nitorcreations/streams/NitorExtractors.java:36-54 | the set extractors give the members of the list extractors |
| Extractors.ListKeepsRepeatedImages | src/test/java/com/nitorcreations/streams/NExtractorsTest.java:52-58 | two keys with the same image give that image twice in the list but once in the set |

## Left out

- `consumingEntry` (`NitorMappers`): its only effect is a call of a consumer with side effects.
- The `parallel` flag of `asStream`: it only selects a parallel stream, and the model is sequential.
- `doesNotContainAllOf`: no implementation of it exists in the library; only a test names it.
- The second copy of `NCollectionPredicates` in the test tree: an older revision with the same varargs behaviour as the one modelled.
- Exceptions thrown by user-supplied functions, predicates and merge functions: these are modelled as total functions.
- A merge function returning `null`: in Java this removes the key from the map. The merge function here returns a value.
- `null` map entries, a `null` varargs array, a `null` map among `combine`'s arguments, and a `null` Optional reference: these are NullPointerExceptions from the JDK that no caller of the library is meant to trigger.
- `null` predicate and function arguments: only `having` and `havingEqual`, which check for `null` explicitly, and the shorthands built on `having`, model the NullPointerException. Elsewhere the arguments are non-null.
- Iterator exhaustion: an iterator is modelled by its remaining elements, not as a single-use object.
- Hash order: sets and maps are unordered Dafny `set` and `map`. Only the list extractors, which keep map order, see the order of the entries.
- Comparable predicates over arbitrary `Comparable` types: the model covers `Integer` only, as a 32-bit `newtype`.
- StringPredicates.StartsWith: a `null` prefix makes `String.startsWith` throw NullPointerException once a non-null string is tested (NStringPredicates.java line 21); the prefix is a non-null `string` here, so that exception is not modelled.
- StringPredicates.EndsWith: a `null` suffix makes `String.endsWith` throw NullPointerException once a non-null string is tested (NStringPredicates.java line 32); the suffix is a non-null `string` here, so that exception is not modelled.
- ComparablePredicates.CompareTo: a `null` operand makes `Integer.compareTo` throw NullPointerException; `Int32` has no `null`, so neither a `null` tested value nor a `null` bound is modelled.
- ComparablePredicates.LessThan: a `null` tested value or a `null` bound, a NullPointerException in `compareTo`, is not modelled, because `Int32` has no `null`.
- ComparablePredicates.LessThanOrEqualTo: a `null` tested value or a `null` bound, a NullPointerException in `compareTo`, is not modelled, because `Int32` has no `null`.
- ComparablePredicates.GreaterThan: a `null` tested value or a `null` bound, a NullPointerException in `compareTo`, is not modelled, because `Int32` has no `null`.
- ComparablePredicates.GreaterThanOrEqualTo: a `null` tested value or a `null` bound, a NullPointerException in `compareTo`, is not modelled, because `Int32` has no `null`.
- ComparablePredicates.Lt: a `null` tested value or a `null` bound, a NullPointerException in `compareTo`, is not modelled, because `Int32` has no `null`.
- ComparablePredicates.Lte: a `null` tested value or a `null` bound, a NullPointerException in `compareTo`, is not modelled, because `Int32` has no `null`.
- ComparablePredicates.Gt: a `null` tested value or a `null` bound, a NullPointerException in `compareTo`, is not modelled, because `Int32` has no `null`.
- ComparablePredicates.Gte: a `null` tested value or a `null` bound, a NullPointerException in `compareTo`, is not modelled, because `Int32` has no `null`.
- Collectors.Occurrences: a `null` element (a NullPointerException in `groupingBy`) and `Long` overflow of a count are not modelled; elements are plain values and counts unbounded.
- Maps.Mapping: the key `Set` is a duplicate-free sequence in iteration order, which `NoDuplicates` requires of the caller.
- Maps.MapOf: the ten fixed-arity overloads are one function over 1 to 10 pairs.
- Collectors.EntriesToMapMerge: its contract states only success, errors and keys; the fold of each key's values is `Collectors.MergeFoldsValues`.
- Maps.CombineWith: its contract states only success, errors and keys; the fold of each key's values is `Maps.CombineFoldsInMapOrder`.
- Maps.CombineAndSkip: its contract states only success and keys; the first-value choice is `Maps.CombineAndSkipKeepsFirst`.
- Test classes `NMappersTest` and `NExtractorsTest` call classes named `NMappers` and `NExtractors`; those files are not part of this model, and the tests are read as specifying `NitorMappers` and `NitorExtractors`.
- The collector tests read a list `entriesWithDuplicates` that the fixture class does not declare; `Collectors.SummingEkaToka` uses the fixture's `entries` instead, which repeat the key "Eka" and give the sums the test expects.
