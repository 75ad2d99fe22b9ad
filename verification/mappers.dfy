/** `NitorMappers`: functions from map entries to entries or to anything
    else, for use in `Stream.map` over a map's entry set. */
module Mappers {
  import opened Wrappers
  import opened Seqs
  import opened Entries
  import opened Collectors

  /** `entryOf(key, value)`: a `SimpleImmutableEntry`. */
  function EntryOf<K, V>(key: K, value: V): (r: Entry<K, V>)
    ensures r.key == key && r.value == value
  {
    Entry(key, value)
  }

  /** `mappingValue(mapper)`: the entry with the same key and the value
      `mapper(key, value)`. */
  function MappingValue<K(!new), V(!new), W>(f: (K, V) -> W): (r: Entry<K, V> -> Entry<K, W>)
    ensures forall e :: r(e).key == e.key
    ensures forall e :: r(e).value == f(e.key, e.value)
  {
    (e: Entry<K, V>) => Entry(e.key, f(e.key, e.value))
  }

  /** `mappingKey(mapper)`: the entry with the key `mapper(key, value)`
      and the same value. */
  function MappingKey<K(!new), V(!new), KK>(f: (K, V) -> KK): (r: Entry<K, V> -> Entry<KK, V>)
    ensures forall e :: r(e).key == f(e.key, e.value) && r(e).value == e.value
  {
    (e: Entry<K, V>) => Entry(f(e.key, e.value), e.value)
  }

  /** `mappingEntry(mapper)`: `mapper(key, value)`. */
  function MappingEntry<K(!new), V(!new), Out>(f: (K, V) -> Out): (r: Entry<K, V> -> Out)
    ensures forall e :: r(e) == f(e.key, e.value)
  {
    (e: Entry<K, V>) => f(e.key, e.value)
  }

  // ---------------------------------------------------------------------
  // Laws

  /** `mappingValue` keeps the keys, so it keeps them distinct. */
  lemma MappingValueKeepsKeys<K(!new), V(!new), W>(f: (K, V) -> W, es: seq<Entry<K, V>>)
    ensures Keys(Map(MappingValue(f), es)) == Keys(es)
    ensures KeySet(Map(MappingValue(f), es)) == KeySet(es)
    ensures DistinctKeys(es) ==> DistinctKeys(Map(MappingValue(f), es))
  {
    var r := Map(MappingValue(f), es);
    assert forall i :: 0 <= i < |es| ==> r[i].key == es[i].key;
    assert KeySet(r) == KeySet(es) by {
      forall k | k in KeySet(es) ensures k in KeySet(r) {
        var e :| e in es && e.key == k;
        var i :| 0 <= i < |es| && es[i] == e;
        assert r[i] in r;
      }
      forall k | k in KeySet(r) ensures k in KeySet(es) {
        var e :| e in r && e.key == k;
        var i :| 0 <= i < |r| && r[i] == e;
        assert es[i] in es;
      }
    }
  }

  /** Collecting a map's entries after `mappingValue` gives a map with the
      same keys, each mapped to the new value, as long as no new value is
      `null`. */
  lemma CollectingMappedValues<K(!new), V(!new), W>(f: (K, V) -> Option<W>, es: seq<Entry<K, V>>)
    requires DistinctKeys(es)
    requires forall i :: 0 <= i < |es| ==> f(es[i].key, es[i].value).Some?
    ensures EntriesToMap(Map(MappingValue(f), es)).Success?
    ensures EntriesToMap(Map(MappingValue(f), es)).value.Keys == KeySet(es)
    ensures forall i :: 0 <= i < |es| ==>
              Some(EntriesToMap(Map(MappingValue(f), es)).value[es[i].key]) == f(es[i].key, es[i].value)
  {
    MappingValueKeepsKeys(f, es);
  }

  /** Collecting a map's entries after `mappingKey` succeeds exactly when
      no value is `null` and the new keys are pairwise distinct; the result
      maps each new key to the value it came with, and has no other key. */
  lemma CollectingMappedKeys<K(!new), V(!new), KK(!new)>(f: (K, Option<V>) -> KK, es: seq<Entry<K, Option<V>>>)
    ensures EntriesToMap(Map(MappingKey(f), es)).Success?
            <==> NonNullValues(es)
                 && forall i, j :: 0 <= i < j < |es| ==> f(es[i].key, es[i].value) != f(es[j].key, es[j].value)
    ensures EntriesToMap(Map(MappingKey(f), es)).Success? ==>
              forall i :: 0 <= i < |es| ==>
                f(es[i].key, es[i].value) in EntriesToMap(Map(MappingKey(f), es)).value
                && Some(EntriesToMap(Map(MappingKey(f), es)).value[f(es[i].key, es[i].value)]) == es[i].value
    ensures EntriesToMap(Map(MappingKey(f), es)).Success? ==>
              forall k :: k in EntriesToMap(Map(MappingKey(f), es)).value ==>
                exists i :: 0 <= i < |es| && f(es[i].key, es[i].value) == k
  {
    var mapped := Map(MappingKey(f), es);
    assert forall i :: 0 <= i < |es| ==> mapped[i].key == f(es[i].key, es[i].value) && mapped[i].value == es[i].value;
    assert NonNullValues(mapped) <==> NonNullValues(es);
    var r := EntriesToMap(mapped);
    if r.Success? {
      forall k | k in r.value
        ensures exists i :: 0 <= i < |es| && f(es[i].key, es[i].value) == k
      {
        assert k in KeySet(mapped);
        var e :| e in mapped && e.key == k;
        var i :| 0 <= i < |mapped| && mapped[i] == e;
        assert f(es[i].key, es[i].value) == k;
      }
      forall i | 0 <= i < |es|
        ensures f(es[i].key, es[i].value) in r.value
      {
        assert mapped[i] in mapped;
      }
    }
  }

  /** `mappingEntry` then `toList()` gives `mapper` applied to every entry,
      in the map's order. */
  lemma MappingEntryInOrder<K(!new), V(!new), Out>(f: (K, V) -> Out, es: seq<Entry<K, V>>)
    ensures |Map(MappingEntry(f), es)| == |es|
    ensures forall i :: 0 <= i < |es| ==> Map(MappingEntry(f), es)[i] == f(es[i].key, es[i].value)
  {
  }
}
