/** `NitorExtractors`: a function applied to the keys or the values of a
    map, collected to a list or a set. A `null` map throws
    NullPointerException on `keySet()` or `values()`. */
module Extractors {
  import opened Wrappers
  import opened Seqs
  import opened Entries

  /** `doWithKeys(map, fn)`: `fn` applied to the keys, in the map's
      order. */
  function DoWithKeys<F, V, T>(m: Option<seq<Entry<F, V>>>, fn: F -> T): (r: Result<seq<T>>)
    ensures r.Failure? <==> m.None?
    ensures r.Failure? ==> r.error == NullPointer
    ensures r.Success? ==> |r.value| == |m.value| && forall i :: 0 <= i < |m.value| ==> r.value[i] == fn(m.value[i].key)
  {
    match m
    case None => Failure(NullPointer)
    case Some(es) => Success(Map(fn, Keys(es)))
  }

  /** `extractKeysToList(map, fn)`: `doWithKeys(map, fn)` to a list;
      equal images are all kept. */
  function ExtractKeysToList<F, V, T>(m: Option<seq<Entry<F, V>>>, fn: F -> T): (r: Result<seq<T>>)
    ensures r.Failure? <==> m.None?
    ensures r.Failure? ==> r.error == NullPointer
    ensures r.Success? ==> |r.value| == |m.value| && forall i :: 0 <= i < |m.value| ==> r.value[i] == fn(m.value[i].key)
  {
    DoWithKeys(m, fn)
  }

  /** `extractKeysToSet(map, fn)`: `doWithKeys(map, fn)` to a set, the
      image of the keys. */
  function ExtractKeysToSet<F, V, T(!new)>(m: Option<seq<Entry<F, V>>>, fn: F -> T): (r: Result<set<T>>)
    ensures r.Failure? <==> m.None?
    ensures r.Failure? ==> r.error == NullPointer
    ensures r.Success? ==> forall y :: y in r.value <==> exists i :: 0 <= i < |m.value| && y == fn(m.value[i].key)
  {
    var s :- DoWithKeys(m, fn);
    Success(set y | y in s)
  }

  /** `doWithValues(map, fn)`: `fn` applied to the values, in the map's
      order. */
  function DoWithValues<K, F, T>(m: Option<seq<Entry<K, F>>>, fn: F -> T): (r: Result<seq<T>>)
    ensures r.Failure? <==> m.None?
    ensures r.Failure? ==> r.error == NullPointer
    ensures r.Success? ==> |r.value| == |m.value| && forall i :: 0 <= i < |m.value| ==> r.value[i] == fn(m.value[i].value)
  {
    match m
    case None => Failure(NullPointer)
    case Some(es) => Success(Map((e: Entry<K, F>) => fn(e.value), es))
  }

  /** `extractValuesToList(map, fn)`: `doWithValues(map, fn)` to a list. */
  function ExtractValuesToList<K, F, T>(m: Option<seq<Entry<K, F>>>, fn: F -> T): (r: Result<seq<T>>)
    ensures r.Failure? <==> m.None?
    ensures r.Failure? ==> r.error == NullPointer
    ensures r.Success? ==> |r.value| == |m.value| && forall i :: 0 <= i < |m.value| ==> r.value[i] == fn(m.value[i].value)
  {
    DoWithValues(m, fn)
  }

  /** `extractValuesToSet(map, fn)`: `doWithValues(map, fn)` to a set, the
      image of the values. */
  function ExtractValuesToSet<K, F, T(!new)>(m: Option<seq<Entry<K, F>>>, fn: F -> T): (r: Result<set<T>>)
    ensures r.Failure? <==> m.None?
    ensures r.Failure? ==> r.error == NullPointer
    ensures r.Success? ==> forall y :: y in r.value <==> exists i :: 0 <= i < |m.value| && y == fn(m.value[i].value)
  {
    var s :- DoWithValues(m, fn);
    Success(set y | y in s)
  }

  // ---------------------------------------------------------------------
  // Laws

  /** An empty map gives empty results, and a `null` map throws, for all
      four extractors. */
  lemma EmptyAndNullMaps<K, V, T(!new)>(fk: K -> T, fv: V -> T)
    ensures ExtractKeysToList<K, V, T>(Some([]), fk) == Success([]) && ExtractKeysToSet<K, V, T>(Some([]), fk) == Success({})
    ensures ExtractValuesToList<K, V, T>(Some([]), fv) == Success([]) && ExtractValuesToSet<K, V, T>(Some([]), fv) == Success({})
    ensures ExtractKeysToList<K, V, T>(None, fk) == Failure(NullPointer) && ExtractKeysToSet<K, V, T>(None, fk) == Failure(NullPointer)
    ensures ExtractValuesToList<K, V, T>(None, fv) == Failure(NullPointer) && ExtractValuesToSet<K, V, T>(None, fv) == Failure(NullPointer)
  {
    assert ExtractKeysToSet<K, V, T>(Some([]), fk).value == {};
    assert ExtractValuesToSet<K, V, T>(Some([]), fv).value == {};
  }

  /** The set extractors collect the members of the list extractors. */
  lemma SetIsListMembers<K, V, T(!new)>(m: Option<seq<Entry<K, V>>>, fk: K -> T, fv: V -> T)
    requires m.Some?
    ensures ExtractKeysToSet(m, fk).value == set y | y in ExtractKeysToList(m, fk).value
    ensures ExtractValuesToSet(m, fv).value == set y | y in ExtractValuesToList(m, fv).value
  {
  }

  /** `String::length`. */
  function Length(s: string): nat
  {
    |s|
  }

  /** Key images may repeat in the list: two keys of the same length give
      the length twice, and once in the set. */
  lemma ListKeepsRepeatedImages<V>(m: seq<Entry<string, V>>)
    requires |m| == 2 && |m[0].key| == |m[1].key|
    ensures ExtractKeysToList(Some(m), Length) == Success([|m[0].key|, |m[0].key|])
    ensures ExtractKeysToSet(Some(m), Length) == Success({|m[0].key|})
  {
    var r := ExtractKeysToList(Some(m), Length).value;
    assert r == [|m[0].key|, |m[0].key|];
    assert ExtractKeysToSet(Some(m), Length).value == {|m[0].key|};
  }
}
