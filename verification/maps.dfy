/** `NMaps`: building maps from entries, from a key set and a value
    function, from parallel lists, and by combining maps. Every builder
    collects entries with `entriesToMap`, so a repeated key is an
    IllegalStateException and a `null` value a NullPointerException. A
    Java map argument is the sequence of its entries, whose keys are
    distinct. */
module Maps {
  import opened Wrappers
  import opened Seqs
  import opened Entries
  import opened Collectors
  import opened Mappers

  /** `mapOfEntries(entries...)`: the entries collected with
      `entriesToMap()`. */
  function MapOfEntries<K(==), V>(es: seq<Entry<K, Option<V>>>): (r: Result<map<K, V>>)
    ensures r.Success? <==> DistinctKeys(es) && NonNullValues(es)
    ensures |es| == 0 ==> r == Success(map[])
    ensures r.Success? ==> r.value.Keys == KeySet(es) && |r.value| == |es|
    ensures r.Success? ==> forall i :: 0 <= i < |es| ==> es[i].value == Some(r.value[es[i].key])
  {
    var r := EntriesToMap(es);
    if r.Success? then
      DistinctKeysCardinality(es);
      r
    else
      r
  }

  /** `mapping(keys, valueFn)`: every key of the set mapped to
      `valueFn(key)`; a `null` value throws. The set is the sequence of its
      elements in iteration order. */
  function Mapping<K(==), V>(keys: seq<K>, fn: K -> Option<V>): (r: Result<map<K, V>>)
    requires NoDuplicates(keys)
    ensures r.Success? <==> forall i :: 0 <= i < |keys| ==> fn(keys[i]).Some?
    ensures r.Failure? ==> r.error == NullPointer
    ensures r.Success? ==> r.value.Keys == set k | k in keys
    ensures r.Success? ==> forall k :: k in r.value ==> fn(k) == Some(r.value[k])
  {
    var es := Map((k: K) => EntryOf(k, fn(k)), keys);
    assert forall i :: 0 <= i < |es| ==> es[i].key == keys[i];
    assert KeySet(es) == set k | k in keys by {
      forall k | k in keys ensures k in KeySet(es) {
        var i :| 0 <= i < |keys| && keys[i] == k;
        assert es[i] in es;
      }
    }
    EntriesToMap(es)
  }

  /** `mapOfLists(keys, values)`: `keys.get(i)` mapped to `values.get(i)`.
      A `null` list throws on `size()`, lists of different sizes throw
      IllegalArgumentException, and the collection throws as usual. */
  function MapOfLists<K(==), V>(keys: Option<seq<K>>, values: Option<seq<Option<V>>>): (r: Result<map<K, V>>)
    ensures keys.None? || values.None? ==> r == Failure(NullPointer)
    ensures keys.Some? && values.Some? && |keys.value| != |values.value| ==> r == Failure(IllegalArgument)
    ensures r.Success? <==> keys.Some? && values.Some? && |keys.value| == |values.value|
                            && NoDuplicates(keys.value) && forall i :: 0 <= i < |values.value| ==> values.value[i].Some?
    ensures (r.Failure? && keys.Some? && values.Some? && |keys.value| == |values.value|
             && forall i :: 0 <= i < |values.value| ==> values.value[i].Some?) ==> r.error == IllegalState
    ensures r.Success? ==> r.value.Keys == set k | k in keys.value
    ensures r.Success? ==> forall i :: 0 <= i < |keys.value| ==> values.value[i] == Some(r.value[keys.value[i]])
  {
    if keys.None? || values.None? then Failure(NullPointer)
    else if |keys.value| != |values.value| then Failure(IllegalArgument)
    else
      var ks := keys.value;
      var vs := values.value;
      var es := seq(|ks|, i requires 0 <= i < |ks| => EntryOf(ks[i], vs[i]));
      assert forall i :: 0 <= i < |es| ==> es[i].key == ks[i] && es[i].value == vs[i];
      assert DistinctKeys(es) <==> NoDuplicates(ks);
      assert NonNullValues(es) <==> forall i :: 0 <= i < |vs| ==> vs[i].Some?;
      assert KeySet(es) == set k | k in ks by {
        forall k | k in ks ensures k in KeySet(es) {
          var i :| 0 <= i < |ks| && ks[i] == k;
          assert es[i] in es;
        }
      }
      EntriesToMap(es)
  }

  // ---------------------------------------------------------------------
  // Combining maps

  /** Every argument is a map: its keys are distinct. */
  ghost predicate AreMaps<K, V>(maps: seq<seq<Entry<K, V>>>)
  {
    forall i :: 0 <= i < |maps| ==> DistinctKeys(maps[i])
  }

  /** No key is in two of the maps. */
  ghost predicate DisjointKeys<K, V>(maps: seq<seq<Entry<K, V>>>)
  {
    forall i, j :: 0 <= i < j < |maps| ==> KeySet(maps[i]) !! KeySet(maps[j])
  }

  /** The keys of all the maps. */
  ghost function UnionKeys<K, V>(maps: seq<seq<Entry<K, V>>>): set<K>
  {
    if |maps| == 0 then {} else UnionKeys(maps[..|maps| - 1]) + KeySet(maps[|maps| - 1])
  }

  /** The values the maps give `k`, in argument order; each map gives at
      most one. */
  ghost function ValuesAcross<K, V>(maps: seq<seq<Entry<K, V>>>, k: K): seq<V>
  {
    if |maps| == 0 then [] else ValuesAcross(maps[..|maps| - 1], k) + ValuesFor(maps[|maps| - 1], k)
  }

  /** `maps[i]` is the first of the maps with key `k`. */
  ghost predicate FirstMapWith<K, V>(maps: seq<seq<Entry<K, V>>>, k: K, i: int)
  {
    0 <= i < |maps| && k in KeySet(maps[i]) && forall j :: 0 <= j < i ==> k !in KeySet(maps[j])
  }

  /** `combine(maps...)`: the entries of all the maps collected with
      `entriesToMap()`. */
  function Combine<K(==), V>(maps: seq<seq<Entry<K, Option<V>>>>): (r: Result<map<K, V>>)
    requires AreMaps(maps)
    ensures r.Success? <==> DisjointKeys(maps) && forall i :: 0 <= i < |maps| ==> NonNullValues(maps[i])
    ensures r.Success? ==> r.value.Keys == UnionKeys(maps)
    ensures r.Success? ==> forall i, e :: 0 <= i < |maps| && e in maps[i] ==> e.key in r.value && e.value == Some(r.value[e.key])
  {
    var es := Flatten(maps);
    FlattenOfMaps(maps);
    var r := EntriesToMap(es);
    assert r.Success? ==> forall i, e :: 0 <= i < |maps| && e in maps[i] ==> e.key in r.value && e.value == Some(r.value[e.key]) by {
      if r.Success? {
        forall i, e | 0 <= i < |maps| && e in maps[i] ensures e.key in r.value && e.value == Some(r.value[e.key]) {
          FlattenMembership(maps, e);
          assert e in es;
          var j :| 0 <= j < |es| && es[j] == e;
        }
      }
    }
    r
  }

  /** `combine(mergeFn, maps...)`: the entries of all the maps collected
      with `entriesToMap(mergeFn)`. How the values meet is
      `CombineFoldsInMapOrder`. */
  function CombineWith<K(==), V>(merge: (V, V) -> V, maps: seq<seq<Entry<K, Option<V>>>>): (r: Result<map<K, V>>)
    requires AreMaps(maps)
    ensures r.Success? <==> forall i :: 0 <= i < |maps| ==> NonNullValues(maps[i])
    ensures r.Failure? ==> r.error == NullPointer
    ensures r.Success? ==> r.value.Keys == UnionKeys(maps)
  {
    FlattenOfMaps(maps);
    EntriesToMapMerge(Flatten(maps), merge)
  }

  /** `combineAndSkip(maps...)`: `combine((v1, v2) -> v1, maps)`. */
  function CombineAndSkip<K(==), V>(maps: seq<seq<Entry<K, Option<V>>>>): (r: Result<map<K, V>>)
    requires AreMaps(maps)
    ensures r.Success? <==> forall i :: 0 <= i < |maps| ==> NonNullValues(maps[i])
    ensures r.Success? ==> r.value.Keys == UnionKeys(maps)
  {
    CombineWith(KeepFirst, maps)
  }

  /** `mapOf(k1, v1, ..., kn, vn)` for n from 1 to 10: one pair is
      `mapOfEntries(entryOf(k1, v1))`; more pairs are first made into
      one-entry maps, left to right, and then `combine`d. */
  function MapOf<K(==), V>(es: seq<Entry<K, Option<V>>>): (r: Result<map<K, V>>)
    requires 1 <= |es| <= 10
    ensures r.Success? <==> MapOfEntries(es).Success?
    ensures r.Success? ==> r == MapOfEntries(es) && |r.value| == |es|
    ensures r.Failure? ==> r.error == if NonNullValues(es) then IllegalState else NullPointer
  {
    if |es| == 1 then
      SingleEntryMap(es);
      MapOfEntries(es)
    else
      var singles := Map((e: Entry<K, Option<V>>) => MapOfEntries([e]), es);
      if exists i :: 0 <= i < |singles| && singles[i].Failure? then
        // a one-entry map fails only on a `null` value
        SinglesFailOnNull(es, singles);
        Failure(NullPointer)
      else
        SinglesFailOnNull(es, singles);
        var maps := Map((e: Entry<K, Option<V>>) => [e], es);
        CombineSingletons(es, maps);
        Combine(maps)
  }

  /** A one-entry map fails only on a `null` value. */
  lemma SingleEntryMap<K, V>(es: seq<Entry<K, Option<V>>>)
    requires |es| == 1
    ensures MapOfEntries(es).Success? <==> es[0].value.Some?
    ensures MapOfEntries(es).Success? ==> |MapOfEntries(es).value| == 1
    ensures MapOfEntries(es).Failure? ==> MapOfEntries(es).error == NullPointer
  {
    assert DistinctKeys(es);
    assert NonNullValues(es) <==> es[0].value.Some?;
  }

  /** Some of the one-entry maps fails exactly when a value is `null`. */
  lemma SinglesFailOnNull<K, V>(es: seq<Entry<K, Option<V>>>, singles: seq<Result<map<K, V>>>)
    requires |singles| == |es| && forall i :: 0 <= i < |es| ==> singles[i] == MapOfEntries([es[i]])
    ensures (exists i :: 0 <= i < |singles| && singles[i].Failure?) <==> !NonNullValues(es)
  {
    forall i | 0 <= i < |es| ensures singles[i].Success? <==> es[i].value.Some? {
      SingleEntryMap([es[i]]);
    }
  }

  /** Combining the one-entry maps of non-null entries is collecting the
      entries, and its only failure is a repeated key. */
  lemma CombineSingletons<K, V>(es: seq<Entry<K, Option<V>>>, maps: seq<seq<Entry<K, Option<V>>>>)
    requires NonNullValues(es)
    requires |maps| == |es| && forall i :: 0 <= i < |es| ==> maps[i] == [es[i]]
    ensures AreMaps(maps)
    ensures Combine(maps) == MapOfEntries(es)
    ensures Combine(maps).Failure? ==> Combine(maps).error == IllegalState
  {
    assert maps == Map((x: Entry<K, Option<V>>) => [x], es);
    FlattenSingletons(es);
    assert Combine(maps) == EntriesToMap(es);
    if EntriesToMap(es).Failure? {
      var i :| FirstOffending(es, i) && EntriesToMap(es).error == OffenceError(es[i]);
      assert es[i].value.Some?;
    }
  }

  // ---------------------------------------------------------------------
  // Laws

  /** The entries of the maps together: their keys, whether they are
      distinct, whether a value is `null`. */
  lemma {:induction false} FlattenOfMaps<K, V>(maps: seq<seq<Entry<K, Option<V>>>>)
    requires AreMaps(maps)
    ensures KeySet(Flatten(maps)) == UnionKeys(maps)
    ensures DistinctKeys(Flatten(maps)) <==> DisjointKeys(maps)
    ensures NonNullValues(Flatten(maps)) <==> forall i :: 0 <= i < |maps| ==> NonNullValues(maps[i])
  {
    if |maps| > 0 {
      var init := maps[..|maps| - 1];
      var last := maps[|maps| - 1];
      assert forall i :: 0 <= i < |init| ==> init[i] == maps[i];
      FlattenOfMaps(init);
      KeySetAppend(Flatten(init), last);
      DistinctKeysAppend(Flatten(init), last);
      NonNullValuesAppend(Flatten(init), last);
      UnionKeysSplit(init, last, maps);
    }
  }

  /** The keys of one more map, and when the maps stay disjoint. */
  lemma UnionKeysSplit<K, V>(init: seq<seq<Entry<K, V>>>, last: seq<Entry<K, V>>, maps: seq<seq<Entry<K, V>>>)
    requires maps == init + [last]
    ensures UnionKeys(maps) == UnionKeys(init) + KeySet(last)
    ensures DisjointKeys(maps) <==> DisjointKeys(init) && UnionKeys(init) !! KeySet(last)
  {
    assert maps[..|maps| - 1] == init;
    UnionKeysMembers(init);
    assert forall i :: 0 <= i < |init| ==> maps[i] == init[i];
  }

  /** A key is in the union exactly when one of the maps has it. */
  lemma {:induction false} UnionKeysMembers<K, V>(maps: seq<seq<Entry<K, V>>>)
    ensures forall k :: k in UnionKeys(maps) <==> exists i :: 0 <= i < |maps| && k in KeySet(maps[i])
  {
    if |maps| > 0 {
      var init := maps[..|maps| - 1];
      UnionKeysMembers(init);
      assert forall i :: 0 <= i < |init| ==> init[i] == maps[i];
    }
  }

  /** The values a key gets from the combined entries are the values the
      maps give it, map after map. */
  lemma {:induction false} ValuesForFlatten<K, V>(maps: seq<seq<Entry<K, V>>>, k: K)
    ensures ValuesFor(Flatten(maps), k) == ValuesAcross(maps, k)
  {
    if |maps| > 0 {
      var init := maps[..|maps| - 1];
      ValuesForFlatten(init, k);
      ValuesForAppend(Flatten(init), maps[|maps| - 1], k);
    }
  }

  /** `combine(mergeFn, maps...)` folds the values of a shared key with
      `mergeFn(earlier, later)`, in the order of the maps. */
  lemma CombineFoldsInMapOrder<K, V>(merge: (V, V) -> V, maps: seq<seq<Entry<K, Option<V>>>>)
    requires AreMaps(maps)
    requires forall i :: 0 <= i < |maps| ==> NonNullValues(maps[i])
    ensures forall k :: k in CombineWith(merge, maps).value ==>
              Reduce(Somes(ValuesAcross(maps, k)), merge) == Some(CombineWith(merge, maps).value[k])
  {
    FlattenOfMaps(maps);
    MergeFoldsValues(Flatten(maps), merge);
    forall k | k in CombineWith(merge, maps).value
      ensures Reduce(Somes(ValuesAcross(maps, k)), merge) == Some(CombineWith(merge, maps).value[k])
    {
      ValuesForFlatten(maps, k);
    }
  }

  /** The values across the maps start with the value of the first map
      that has the key. */
  lemma {:induction false} FirstAcross<K, V>(maps: seq<seq<Entry<K, V>>>, k: K)
    requires AreMaps(maps) && k in UnionKeys(maps)
    ensures exists i, e :: FirstMapWith(maps, k, i) && e in maps[i] && e.key == k
                           && |ValuesAcross(maps, k)| > 0 && ValuesAcross(maps, k)[0] == e.value
  {
    var init := maps[..|maps| - 1];
    var last := maps[|maps| - 1];
    assert forall i :: 0 <= i < |init| ==> init[i] == maps[i];
    if k in UnionKeys(init) {
      FirstAcross(init, k);
      var i: int, e: Entry<K, V> :| FirstMapWith(init, k, i) && e in init[i] && e.key == k
                  && |ValuesAcross(init, k)| > 0 && ValuesAcross(init, k)[0] == e.value;
      assert FirstMapWith(maps, k, i);
    } else {
      UnionKeysMembers(init);
      assert ValuesAcross(init, k) == [] by {
        if |init| > 0 {
          ValuesAcrossEmpty(init, k);
        }
      }
      var e :| e in last && e.key == k;
      var j :| 0 <= j < |last| && last[j] == e;
      DistinctKeysOneValue(last, k);
      assert ValuesAcross(maps, k) == ValuesFor(last, k) == [e.value];
      assert FirstMapWith(maps, k, |maps| - 1);
    }
  }

  /** Maps without the key give it no values. */
  lemma {:induction false} ValuesAcrossEmpty<K, V>(maps: seq<seq<Entry<K, V>>>, k: K)
    requires forall i :: 0 <= i < |maps| ==> k !in KeySet(maps[i])
    ensures ValuesAcross(maps, k) == []
  {
    if |maps| > 0 {
      ValuesAcrossEmpty(maps[..|maps| - 1], k);
      assert maps[|maps| - 1] == maps[|maps| - 1];
    }
  }

  /** `combineAndSkip` keeps, for every key, the value of the first map
      that has it. */
  lemma CombineAndSkipKeepsFirst<K, V>(maps: seq<seq<Entry<K, Option<V>>>>)
    requires AreMaps(maps)
    requires forall i :: 0 <= i < |maps| ==> NonNullValues(maps[i])
    ensures forall k :: k in CombineAndSkip(maps).value ==>
              exists i :: FirstMapWith(maps, k, i) && Entry(k, Some(CombineAndSkip(maps).value[k])) in maps[i]
  {
    forall k | k in CombineAndSkip(maps).value
      ensures exists i :: FirstMapWith(maps, k, i) && Entry(k, Some(CombineAndSkip(maps).value[k])) in maps[i]
    {
      KeepsFirstAt(maps, k);
    }
  }

  /** `CombineAndSkipKeepsFirst` for one key. */
  lemma KeepsFirstAt<K, V>(maps: seq<seq<Entry<K, Option<V>>>>, k: K)
    requires AreMaps(maps)
    requires forall i :: 0 <= i < |maps| ==> NonNullValues(maps[i])
    requires k in CombineAndSkip(maps).value
    ensures exists i :: FirstMapWith(maps, k, i) && Entry(k, Some(CombineAndSkip(maps).value[k])) in maps[i]
  {
    var r := CombineAndSkip(maps).value;
    var vs := ValuesAcross(maps, k);
    assert Reduce(Somes(vs), KeepFirst) == Some(r[k]) by {
      CombineFoldsInMapOrder(KeepFirst, maps);
    }
    FirstAcross(maps, k);
    var i: int, e: Entry<K, Option<V>> :| FirstMapWith(maps, k, i) && e in maps[i] && e.key == k
                && |vs| > 0 && vs[0] == e.value;
    assert e.value.Some?;
    SomesFirst(vs);
    ReduceKeepFirst(Somes(vs));
    assert e == Entry(k, Some(r[k]));
  }


  /** Maps with disjoint keys combine into a map as large as all of them
      together. */
  lemma CombineDisjointSize<K, V>(maps: seq<seq<Entry<K, Option<V>>>>)
    requires AreMaps(maps) && DisjointKeys(maps)
    requires forall i :: 0 <= i < |maps| ==> NonNullValues(maps[i])
    ensures Combine(maps).Success? && |Combine(maps).value| == |Flatten(maps)|
  {
    FlattenOfMaps(maps);
    DistinctKeysCardinality(Flatten(maps));
  }

  /** `mapOf` with distinct keys and no `null` value maps every `ki` to
      `vi`, and has as many entries as pairs. */
  lemma MapOfDistinctKeys<K, V>(es: seq<Entry<K, Option<V>>>)
    requires 1 <= |es| <= 10 && DistinctKeys(es) && NonNullValues(es)
    ensures MapOf(es).Success? && |MapOf(es).value| == |es|
    ensures forall i :: 0 <= i < |es| ==> es[i].value == Some(MapOf(es).value[es[i].key])
  {
  }

  /** Two one-entry maps with the same key, as in the library's examples. */
  function SharedKey<K, V>(k: K, x: V, y: V): seq<seq<Entry<K, Option<V>>>>
  {
    [[Entry(k, Some(x))], [Entry(k, Some(y))]]
  }

  /** The entries of two one-entry maps with the same key. */
  lemma SharedKeyEntries<K, V>(k: K, x: V, y: V)
    ensures AreMaps(SharedKey(k, x, y))
    ensures Flatten(SharedKey(k, x, y)) == [Entry(k, Some(x)), Entry(k, Some(y))]
  {
    var maps := SharedKey(k, x, y);
    assert maps[..1][..0] == [];
    assert Flatten(maps[..1]) == Flatten(maps[..1][..0]) + maps[0] == [Entry(k, Some(x))];
    assert Flatten(maps) == Flatten(maps[..1]) + maps[1];
  }

  /** `combine(mapOf(1, 2), mapOf(1, 3))` throws IllegalStateException. */
  lemma CombineSharedKeyFails<K, V>(k: K, x: V, y: V)
    ensures AreMaps(SharedKey(k, x, y)) && Combine(SharedKey(k, x, y)) == Failure(IllegalState)
  {
    SharedKeyEntries(k, x, y);
    var es: seq<Entry<K, Option<V>>> := [Entry(k, Some(x)), Entry(k, Some(y))];
    assert es[0].key == es[1].key;
    assert !Offends(es, 0) && Offends(es, 1);
    assert forall i :: FirstOffending(es, i) ==> i == 1;
  }

  /** `combine(mergeFn, mapOf(k, x), mapOf(k, y))` maps `k` to
      `mergeFn(x, y)`, and `combineAndSkip` of them maps `k` to `x`. */
  lemma CombineSharedKeyMerges<K, V>(k: K, x: V, y: V, merge: (V, V) -> V)
    ensures AreMaps(SharedKey(k, x, y))
    ensures CombineWith(merge, SharedKey(k, x, y)) == Success(map[k := merge(x, y)])
    ensures CombineAndSkip(SharedKey(k, x, y)) == Success(map[k := x])
  {
    SharedKeyEntries(k, x, y);
    var e1: Entry<K, Option<V>> := Entry(k, Some(x));
    var e2: Entry<K, Option<V>> := Entry(k, Some(y));
    forall f: (V, V) -> V ensures EntriesToMapMerge([e1, e2], f) == Success(map[k := f(x, y)]) {
      MergeSnoc([], e1, map[], f);
      assert [] + [e1] == [e1];
      MergeSnoc([e1], e2, map[k := x], f);
      assert [e1] + [e2] == [e1, e2];
      assert MergeInto(map[k := x], k, y, f) == map[k := f(x, y)];
    }
  }
}
