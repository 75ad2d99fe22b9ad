/** `NCollectors`: collectors of streams into maps. `Collectors.toMap`
    accumulates with `HashMap.merge`, which throws NullPointerException on
    a `null` value; without a merge function it merges with a function that
    throws IllegalStateException ("Duplicate key"). The first entry that
    triggers either decides the exception. */
module Collectors {
  import opened Wrappers
  import opened Seqs
  import opened Entries

  /** Entry `i` makes `toMap` throw: its value is `null`, or its key was
      seen before. */
  ghost predicate Offends<K, V>(es: seq<Entry<K, Option<V>>>, i: int)
    requires 0 <= i < |es|
  {
    es[i].value.None? || exists j :: 0 <= j < i && es[j].key == es[i].key
  }

  /** Entry `i` is the first one that makes `toMap` throw. */
  ghost predicate FirstOffending<K, V>(es: seq<Entry<K, Option<V>>>, i: int)
  {
    0 <= i < |es| && Offends(es, i) && forall j :: 0 <= j < i ==> !Offends(es, j)
  }

  /** The exception `HashMap.merge` throws at an offending entry: a `null`
      value is checked before the key. */
  function OffenceError<K, V>(e: Entry<K, Option<V>>): Error
  {
    if e.value.None? then NullPointer else IllegalState
  }

  /** `entriesToMap()`: `toMap(Entry::getKey, Entry::getValue)`. It
      succeeds exactly on distinct keys with non-null values, and then maps
      every key to its value. */
  function EntriesToMap<K(==), V>(es: seq<Entry<K, Option<V>>>): (r: Result<map<K, V>>)
    ensures r.Success? <==> DistinctKeys(es) && NonNullValues(es)
    ensures r.Failure? ==> exists i :: FirstOffending(es, i) && r.error == OffenceError(es[i])
    ensures r.Success? ==> r.value.Keys == KeySet(es)
    ensures r.Success? ==> forall i :: 0 <= i < |es| ==> es[i].value == Some(r.value[es[i].key])
  {
    if |es| == 0 then Success(map[])
    else
      var init := es[..|es| - 1];
      var e := es[|es| - 1];
      assert es == init + [e];
      match EntriesToMap(init)
      case Failure(err) =>
        OffenceSurvivesSnoc(init, e, err);
        Failure(err)
      case Success(m) =>
        if e.value.None? || e.key in m then
          LastOffends(init, e);
          Failure(if e.value.None? then NullPointer else IllegalState)
        else
          CleanSnoc(init, e, m);
          Success(m[e.key := e.value.value])
  }

  /** An entry that made `toMap` throw still does after one more entry. */
  lemma OffenceSurvivesSnoc<K, V>(init: seq<Entry<K, Option<V>>>, e: Entry<K, Option<V>>, err: Error)
    requires exists i :: FirstOffending(init, i) && err == OffenceError(init[i])
    ensures exists i :: FirstOffending(init + [e], i) && err == OffenceError((init + [e])[i])
    ensures !(DistinctKeys(init + [e]) && NonNullValues(init + [e]))
  {
    var i :| FirstOffending(init, i) && err == OffenceError(init[i]);
    var es := init + [e];
    assert forall j :: 0 <= j < |init| ==> es[j] == init[j];
    assert forall j :: 0 <= j <= i ==> Offends(es, j) == Offends(init, j);
    if init[i].value.None? {
      assert es[i].value.None?;
    } else {
      var j :| 0 <= j < i && init[j].key == init[i].key;
      assert es[j].key == es[i].key;
    }
    assert FirstOffending(es, i) && es[i] == init[i];
  }

  /** After entries without offence, a `null` value or a key seen before
      is the first offence. */
  lemma LastOffends<K, V>(init: seq<Entry<K, Option<V>>>, e: Entry<K, Option<V>>)
    requires DistinctKeys(init) && NonNullValues(init)
    requires e.value.None? || e.key in KeySet(init)
    ensures FirstOffending(init + [e], |init|) && (init + [e])[|init|] == e
    ensures !(DistinctKeys(init + [e]) && NonNullValues(init + [e]))
  {
    var es := init + [e];
    assert forall j :: 0 <= j < |init| ==> es[j] == init[j];
    assert forall j :: 0 <= j < |init| ==> !Offends(es, j);
    if e.value.None? {
      assert es[|init|].value.None?;
    } else {
      var x :| x in init && x.key == e.key;
      var j :| 0 <= j < |init| && init[j] == x;
      assert es[j].key == es[|init|].key;
    }
  }

  /** A fresh key with a non-null value extends the collected map. */
  lemma CleanSnoc<K, V>(init: seq<Entry<K, Option<V>>>, e: Entry<K, Option<V>>, m: map<K, V>)
    requires DistinctKeys(init) && NonNullValues(init)
    requires e.value.Some? && e.key !in KeySet(init)
    requires m.Keys == KeySet(init)
    requires forall i :: 0 <= i < |init| ==> init[i].value == Some(m[init[i].key])
    ensures DistinctKeys(init + [e]) && NonNullValues(init + [e])
    ensures m[e.key := e.value.value].Keys == KeySet(init + [e])
    ensures forall i :: 0 <= i < |init + [e]| ==>
              (init + [e])[i].value == Some(m[e.key := e.value.value][(init + [e])[i].key])
  {
    var es := init + [e];
    KeySetAppend(init, [e]);
    assert KeySet([e]) == {e.key};
    DistinctKeysAppend(init, [e]);
    NonNullValuesAppend(init, [e]);
    forall i | 0 <= i < |init| ensures es[i].value == Some(m[e.key := e.value.value][es[i].key]) {
      assert es[i] == init[i] && init[i] in init;
    }
  }

  /** `HashMap.merge(k, v, mergeFn)` on a non-null value: `v` for a new
      key, else `mergeFn(old, v)`. */
  function MergeInto<K(==), V>(m: map<K, V>, k: K, v: V, merge: (V, V) -> V): (r: map<K, V>)
    ensures r.Keys == m.Keys + {k}
    ensures k in m ==> r[k] == merge(m[k], v)
    ensures k !in m ==> r[k] == v
    ensures forall k' :: k' in m && k' != k ==> r[k'] == m[k']
  {
    if k in m then m[k := merge(m[k], v)] else m[k := v]
  }

  /** `entriesToMap(mergeFn)`: `toMap(Entry::getKey, Entry::getValue,
      mergeFn)`. Repeated keys are no error; only a `null` value is. How
      the values are folded is `MergeFoldsValues`. */
  function EntriesToMapMerge<K(==), V>(es: seq<Entry<K, Option<V>>>, merge: (V, V) -> V): (r: Result<map<K, V>>)
    ensures r.Success? <==> NonNullValues(es)
    ensures r.Failure? ==> r.error == NullPointer
    ensures r.Success? ==> r.value.Keys == KeySet(es)
  {
    if |es| == 0 then Success(map[])
    else
      var init := es[..|es| - 1];
      var e := es[|es| - 1];
      assert es == init + [e];
      assert KeySet(es) == KeySet(init) + {e.key};
      match EntriesToMapMerge(init, merge)
      case Failure(err) =>
        Failure(err)
      case Success(m) =>
        if e.value.None? then
          Failure(NullPointer)
        else
          Success(MergeInto(m, e.key, e.value.value, merge))
  }

  /** Each key maps to its values folded with `mergeFn(earlier, later)` in
      encounter order. */
  lemma {:induction false} MergeFoldsValues<K, V>(es: seq<Entry<K, Option<V>>>, merge: (V, V) -> V)
    requires NonNullValues(es)
    ensures forall k :: k in EntriesToMapMerge(es, merge).value ==>
              Reduce(Somes(ValuesFor(es, k)), merge) == Some(EntriesToMapMerge(es, merge).value[k])
  {
    if |es| > 0 {
      var init := es[..|es| - 1];
      var e := es[|es| - 1];
      assert es == init + [e];
      MergeFoldsValues(init, merge);
      var m := EntriesToMapMerge(init, merge).value;
      MergeSnoc(init, e, m, merge);
      MergeStep(init, e, m, merge);
    }
  }

  /** One `HashMap.merge` keeps every key mapped to the fold of its values. */
  lemma MergeStep<K, V>(init: seq<Entry<K, Option<V>>>, e: Entry<K, Option<V>>, m: map<K, V>, merge: (V, V) -> V)
    requires e.value.Some?
    requires m.Keys == KeySet(init)
    requires forall k :: k in m ==> Reduce(Somes(ValuesFor(init, k)), merge) == Some(m[k])
    ensures forall k :: k in MergeInto(m, e.key, e.value.value, merge) ==>
              Reduce(Somes(ValuesFor(init + [e], k)), merge) == Some(MergeInto(m, e.key, e.value.value, merge)[k])
  {
    var r := MergeInto(m, e.key, e.value.value, merge);
    forall k | k in r ensures Reduce(Somes(ValuesFor(init + [e], k)), merge) == Some(r[k]) {
      if k == e.key {
        MergeStepAtKey(init, e, m, merge);
      } else {
        ValuesForSnoc(init, e, k);
        assert ValuesFor(init + [e], k) == ValuesFor(init, k);
        assert k in m && r[k] == m[k];
      }
    }
  }

  /** The values for a key after one more entry. */
  lemma ValuesForSnoc<K, V>(init: seq<Entry<K, V>>, e: Entry<K, V>, k: K)
    ensures ValuesFor(init + [e], k) == ValuesFor(init, k) + if e.key == k then [e.value] else []
  {
    assert (init + [e])[..|init|] == init;
  }

  /** The merged key's fold takes in the new value last. */
  lemma MergeStepAtKey<K, V>(init: seq<Entry<K, Option<V>>>, e: Entry<K, Option<V>>, m: map<K, V>, merge: (V, V) -> V)
    requires e.value.Some?
    requires e.key in m <==> e.key in KeySet(init)
    requires e.key in m ==> Reduce(Somes(ValuesFor(init, e.key)), merge) == Some(m[e.key])
    ensures Reduce(Somes(ValuesFor(init + [e], e.key)), merge) == Some(MergeInto(m, e.key, e.value.value, merge)[e.key])
  {
    var v := e.value.value;
    var before := ValuesFor(init, e.key);
    ValuesForSnoc(init, e, e.key);
    SomesOfAppend(before, [e.value]);
    assert Somes([e.value]) == Somes([e.value][..0]) + [v];
    if e.key in m {
      ReduceSnoc(Somes(before), v, merge);
    } else {
      assert before == [];
    }
  }

  /** `countingOccurrences()`: `groupingBy(identity(), counting())`. Every
      element seen maps to the number of times it occurs. */
  function Occurrences<T(==)>(s: seq<T>): (r: map<T, nat>)
    ensures r.Keys == set x | x in s
    ensures forall x :: x in r ==> r[x] == multiset(s)[x] && r[x] >= 1
  {
    if |s| == 0 then map[]
    else
      var init := s[..|s| - 1];
      var x := s[|s| - 1];
      assert s == init + [x];
      var m := Occurrences(init);
      m[x := (if x in m then m[x] else 0) + 1]
  }

  /** The counts of the given keys added up; a key without a count adds
      nothing. */
  ghost function SumCounts<T>(m: map<T, nat>, ks: seq<T>): nat
  {
    if |ks| == 0 then 0
    else
      var k := ks[|ks| - 1];
      SumCounts(m, ks[..|ks| - 1]) + if k in m then m[k] else 0
  }

  // ---------------------------------------------------------------------
  // Laws

  /** The occurrence counts, one per distinct element, add up to the
      length of the stream. */
  lemma {:induction false} CountsSumToLength<T>(s: seq<T>)
    ensures SumCounts(Occurrences(s), Distinct(s)) == |s|
  {
    if |s| > 0 {
      CountsSumToLength(s[..|s| - 1]);
      CountsStep(s);
    }
  }

  /** The last element adds one to the sum of the counts. */
  lemma CountsStep<T>(s: seq<T>)
    requires |s| > 0
    ensures SumCounts(Occurrences(s), Distinct(s)) == SumCounts(Occurrences(s[..|s| - 1]), Distinct(s[..|s| - 1])) + 1
  {
    var x := s[|s| - 1];
    var m := Occurrences(s[..|s| - 1]);
    var d := Distinct(s[..|s| - 1]);
    if x in d {
      SumCountsIncrement(m, d, x);
    } else {
      CountNewKey(m, d, x);
    }
  }

  /** Counting one more occurrence of a key listed once adds one to the
      sum. */
  lemma {:induction false} SumCountsIncrement<T>(m: map<T, nat>, ks: seq<T>, x: T)
    requires NoDuplicates(ks) && x in ks && x in m
    ensures SumCounts(m[x := m[x] + 1], ks) == SumCounts(m, ks) + 1
  {
    var init := ks[..|ks| - 1];
    assert forall i :: 0 <= i < |init| ==> init[i] == ks[i];
    if ks[|ks| - 1] == x {
      assert x !in init;
      SumCountsUpdateOther(m, init, x, m[x] + 1);
    } else {
      SumCountsIncrement(m, init, x);
    }
  }

  /** A key seen for the first time adds its one occurrence. */
  lemma CountNewKey<T>(m: map<T, nat>, ks: seq<T>, x: T)
    requires x !in ks && x !in m
    ensures SumCounts(m[x := 1], ks + [x]) == SumCounts(m, ks) + 1
  {
    assert (ks + [x])[..|ks|] == ks;
    SumCountsUpdateOther(m, ks, x, 1);
  }

  /** The sum over keys that do not include `x` ignores `x`'s count. */
  lemma {:induction false} SumCountsUpdateOther<T>(m: map<T, nat>, ks: seq<T>, x: T, c: nat)
    requires x !in ks
    ensures SumCounts(m[x := c], ks) == SumCounts(m, ks)
  {
    if |ks| > 0 {
      SumCountsUpdateOther(m, ks[..|ks| - 1], x, c);
    }
  }

  /** Without a merge function `toMap` fails exactly when the merging one
      would have to merge, and otherwise they agree. */
  lemma MergeOnlyMattersForRepeatedKeys<K, V>(es: seq<Entry<K, Option<V>>>, merge: (V, V) -> V)
    requires NonNullValues(es)
    ensures EntriesToMap(es).Success? <==> DistinctKeys(es)
    ensures DistinctKeys(es) ==> EntriesToMap(es) == EntriesToMapMerge(es, merge)
  {
    if DistinctKeys(es) {
      var a := EntriesToMap(es).value;
      var b := EntriesToMapMerge(es, merge).value;
      forall k | k in a ensures a[k] == b[k] {
        AgreeAtKey(es, k, merge);
      }
      assert a == b;
    }
  }

  /** With distinct keys both collectors map a key to its one value. */
  lemma AgreeAtKey<K, V>(es: seq<Entry<K, Option<V>>>, k: K, merge: (V, V) -> V)
    requires NonNullValues(es) && DistinctKeys(es) && k in KeySet(es)
    ensures EntriesToMap(es).value[k] == EntriesToMapMerge(es, merge).value[k]
  {
    var e :| e in es && e.key == k;
    var i :| 0 <= i < |es| && es[i] == e;
    MergeFoldsValues(es, merge);
    SingleValueFold(es, i, merge);
  }

  /** A key given once folds to its one value. */
  lemma SingleValueFold<K, V>(es: seq<Entry<K, Option<V>>>, i: int, merge: (V, V) -> V)
    requires DistinctKeys(es)
    requires 0 <= i < |es| && es[i].value.Some?
    ensures Reduce(Somes(ValuesFor(es, es[i].key)), merge) == es[i].value
  {
    var vs := ValuesFor(es, es[i].key);
    DistinctKeysOneValue(es, es[i].key);
    assert vs == [es[i].value];
    assert Somes(vs) == Somes(vs[..0]) + [es[i].value.value];
  }

  /** A `null` value is reported even when a key repeats later, and a
      repeated key even when a `null` value comes later. */
  lemma FirstOffenceDecides(k: int, v: int)
    ensures EntriesToMap([Entry(k, None), Entry(k, Some(v))]) == Failure(NullPointer)
    ensures EntriesToMap([Entry(k, Some(v)), Entry(k, Some(v)), Entry(k + 1, None)]) == Failure(IllegalState)
  {
    var a: seq<Entry<int, Option<int>>> := [Entry(k, None), Entry(k, Some(v))];
    assert a[0].value.None?;
    assert FirstOffending(a, 0);
    var b: seq<Entry<int, Option<int>>> := [Entry(k, Some(v)), Entry(k, Some(v)), Entry(k + 1, None)];
    assert b[0].key == b[1].key;
    assert !Offends(b, 0) && Offends(b, 1);
    assert forall i :: FirstOffending(b, i) ==> i == 1;
  }

  /** The merge function `(a, b) -> a + b`. */
  function Sum(a: int, b: int): int
  {
    a + b
  }

  /** Collecting one more entry with a value merges it into the map. */
  lemma MergeSnoc<K, V>(init: seq<Entry<K, Option<V>>>, e: Entry<K, Option<V>>, m: map<K, V>, merge: (V, V) -> V)
    requires EntriesToMapMerge(init, merge) == Success(m) && e.value.Some?
    ensures EntriesToMapMerge(init + [e], merge) == Success(MergeInto(m, e.key, e.value.value, merge))
  {
    assert (init + [e])[..|init|] == init;
  }

  /** Summing on repeated keys, as in `entriesToMap((a, b) -> a + b)`:
      the repeated key gets its values merged in order, the other key its
      one value. */
  lemma SummingScenario<K, V>(a: K, b: K, x: V, y: V, z: V, merge: (V, V) -> V)
    requires a != b
    ensures EntriesToMapMerge([Entry(a, Some(x)), Entry(b, Some(y)), Entry(a, Some(z))], merge)
              == Success(map[a := merge(x, z), b := y])
  {
    var e1: Entry<K, Option<V>> := Entry(a, Some(x));
    var e2: Entry<K, Option<V>> := Entry(b, Some(y));
    var e3: Entry<K, Option<V>> := Entry(a, Some(z));
    var m2 := map[a := x, b := y];
    TwoDistinctKeys(e1, e2, merge);
    MergeSnoc([e1, e2], e3, m2, merge);
    assert [e1, e2] + [e3] == [e1, e2, e3];
    assert MergeInto(m2, a, z, merge) == m2[a := merge(x, z)];
    assert m2[a := merge(x, z)] == map[a := merge(x, z), b := y];
  }
  /** Two entries with different keys collect to the two-key map. */
  lemma TwoDistinctKeys<K, V>(e1: Entry<K, Option<V>>, e2: Entry<K, Option<V>>, merge: (V, V) -> V)
    requires e1.key != e2.key && e1.value.Some? && e2.value.Some?
    ensures EntriesToMapMerge([e1, e2], merge) == Success(map[e1.key := e1.value.value, e2.key := e2.value.value])
  {
    var m1 := map[e1.key := e1.value.value];
    assert EntriesToMapMerge([e1], merge) == Success(m1) by {
      MergeSnoc([], e1, map[], merge);
      assert [] + [e1] == [e1];
    }
    MergeSnoc([e1], e2, m1, merge);
    assert [e1] + [e2] == [e1, e2];
  }


  /** The library's fixture entries: "Eka" given 1, 2 and 3, then "Toka"
      given 4 and "Kolmas" given 5. */
  const FixtureEntries: seq<Entry<string, Option<int>>> :=
    [Entry("Eka", Some(1)), Entry("Eka", Some(2)), Entry("Eka", Some(3)),
     Entry("Toka", Some(4)), Entry("Kolmas", Some(5))]

  /** The fixture entries with a summing merge function give three keys,
      "Eka" with its values summed; without a merge function the repeated
      key is an IllegalStateException. */
  lemma SummingEkaToka()
    ensures EntriesToMapMerge(FixtureEntries, Sum) == Success(map["Eka" := 6, "Toka" := 4, "Kolmas" := 5])
    ensures |EntriesToMapMerge(FixtureEntries, Sum).value| == 3
    ensures EntriesToMap(FixtureEntries) == Failure(IllegalState)
  {
    var e1, e2, e3 := Entry("Eka", Some(1)), Entry("Eka", Some(2)), Entry("Eka", Some(3));
    var e4, e5 := Entry("Toka", Some(4)), Entry("Kolmas", Some(5));
    assert FixtureEntries == [e1, e2, e3] + [e4, e5];
    SummingEka(e1, e2, e3);
    SummingTokaKolmas([e1, e2, e3], e4, e5);
    FixtureEntriesCollide();
  }

  /** "Toka" given 4 and "Kolmas" given 5 after "Eka" summed to 6. */
  lemma SummingTokaKolmas(init: seq<Entry<string, Option<int>>>, e4: Entry<string, Option<int>>, e5: Entry<string, Option<int>>)
    requires EntriesToMapMerge(init, Sum) == Success(map["Eka" := 6])
    requires e4 == Entry("Toka", Some(4)) && e5 == Entry("Kolmas", Some(5))
    ensures EntriesToMapMerge(init + [e4, e5], Sum) == Success(map["Eka" := 6, "Toka" := 4, "Kolmas" := 5])
    ensures |map["Eka" := 6, "Toka" := 4, "Kolmas" := 5]| == 3
  {
    var m3 := map["Eka" := 6];
    MergeSnoc(init, e4, m3, Sum);
    var m4 := m3["Toka" := 4];
    MergeSnoc(init + [e4], e5, m4, Sum);
    assert init + [e4] + [e5] == init + [e4, e5];
  }

  /** Without a merge function the fixture's repeated "Eka" is an
      IllegalStateException. */
  lemma FixtureEntriesCollide()
    ensures EntriesToMap(FixtureEntries) == Failure(IllegalState)
  {
    assert !DistinctKeys(FixtureEntries) by {
      assert FixtureEntries[0].key == FixtureEntries[1].key;
    }
    assert NonNullValues(FixtureEntries);
  }

  /** The three "Eka" entries sum to 6. */
  lemma SummingEka(e1: Entry<string, Option<int>>, e2: Entry<string, Option<int>>, e3: Entry<string, Option<int>>)
    requires e1 == Entry("Eka", Some(1)) && e2 == Entry("Eka", Some(2)) && e3 == Entry("Eka", Some(3))
    ensures EntriesToMapMerge([e1, e2, e3], Sum) == Success(map["Eka" := 6])
  {
    MergeSnoc([], e1, map[], Sum);
    assert [] + [e1] == [e1];
    assert MergeInto(map[], "Eka", 1, Sum) == map["Eka" := 1];
    MergeSnoc([e1], e2, map["Eka" := 1], Sum);
    assert [e1] + [e2] == [e1, e2];
    assert MergeInto(map["Eka" := 1], "Eka", 2, Sum) == map["Eka" := 3];
    MergeSnoc([e1, e2], e3, map["Eka" := 3], Sum);
    assert [e1, e2] + [e3] == [e1, e2, e3];
    assert MergeInto(map["Eka" := 3], "Eka", 3, Sum) == map["Eka" := 6];
  }

  /** The library's fixture list with repeated elements. */
  const ListWithDuplicates: seq<string> := ["Foo", "Bar", "Baz", "Qux", "Foo", "Foo", "Foo", "Baz"]

  /** Counting an empty stream gives the empty map; counting the fixture
      list gives its four distinct elements their numbers of occurrences. */
  lemma CountingScenario()
    ensures Occurrences<string>([]) == map[]
    ensures Occurrences(ListWithDuplicates) == map["Foo" := 4, "Bar" := 1, "Baz" := 2, "Qux" := 1]
  {
    FixtureWordsDistinct();
    CountingFourValues("Foo", "Bar", "Baz", "Qux");
  }

  /** The fixture list's shape over any four different values. */
  lemma CountingFourValues<T>(foo: T, bar: T, baz: T, qux: T)
    requires foo != bar && foo != baz && foo != qux && bar != baz && bar != qux && baz != qux
    ensures Occurrences([foo, bar, baz, qux, foo, foo, foo, baz]) == map[foo := 4, bar := 1, baz := 2, qux := 1]
  {
    FourValuesOccurrences([foo, bar, baz, qux, foo, foo, foo, baz], foo, bar, baz, qux);
  }

  /** Counting the fixture shape, given its elements and its multiset. */
  lemma FourValuesOccurrences<T>(s: seq<T>, foo: T, bar: T, baz: T, qux: T)
    requires foo != bar && foo != baz && foo != qux && bar != baz && bar != qux && baz != qux
    requires s == [foo, bar, baz, qux] + [foo, foo, foo, baz]
    ensures Occurrences(s) == map[foo := 4, bar := 1, baz := 2, qux := 1]
  {
    FourValuesMultiset(s, foo, bar, baz, qux);
    FourValuesElements(s, foo, bar, baz, qux);
    CountsOfFourValues(Occurrences(s), multiset(s), foo, bar, baz, qux);
  }

  /** The elements of the fixture shape. */
  lemma FourValuesElements<T>(s: seq<T>, foo: T, bar: T, baz: T, qux: T)
    requires s == [foo, bar, baz, qux] + [foo, foo, foo, baz]
    ensures (set x | x in s) == {foo, bar, baz, qux}
  {
    assert s[0] == foo && s[1] == bar && s[2] == baz && s[3] == qux;
  }

  /** A count map that agrees with the fixture multiset on its four keys. */
  lemma CountsOfFourValues<T>(r: map<T, nat>, ms: multiset<T>, foo: T, bar: T, baz: T, qux: T)
    requires foo != bar && foo != baz && foo != qux && bar != baz && bar != qux && baz != qux
    requires ms == multiset{foo, bar, baz, qux} + multiset{foo, foo, foo, baz}
    requires r.Keys == {foo, bar, baz, qux}
    requires forall x :: x in r ==> r[x] == ms[x]
    ensures r == map[foo := 4, bar := 1, baz := 2, qux := 1]
  {
    assert r[foo] == 4 && r[bar] == 1 && r[baz] == 2 && r[qux] == 1;
  }

  /** The fixture shape as a multiset, one half at a time. */
  lemma FourValuesMultiset<T>(s: seq<T>, foo: T, bar: T, baz: T, qux: T)
    requires s == [foo, bar, baz, qux] + [foo, foo, foo, baz]
    ensures multiset(s) == multiset{foo, bar, baz, qux} + multiset{foo, foo, foo, baz}
  {
    assert multiset([foo, bar, baz, qux]) == multiset{foo, bar, baz, qux};
    assert multiset([foo, foo, foo, baz]) == multiset{foo, foo, foo, baz};
  }

  /** The four words of the fixture list are different strings. */
  lemma FixtureWordsDistinct()
    ensures "Foo" != "Bar" && "Foo" != "Baz" && "Foo" != "Qux"
    ensures "Bar" != "Baz" && "Bar" != "Qux" && "Baz" != "Qux"
  {
    assert "Foo"[0] != "Bar"[0] && "Foo"[0] != "Qux"[0] && "Bar"[0] != "Qux"[0];
    assert "Bar"[2] != "Baz"[2];
  }
}
