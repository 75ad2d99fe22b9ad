/** `java.util.Map.Entry` and the views of a list of entries that the map
    helpers are specified by. A Java map is modelled by its entries in
    iteration order; values may be `null`, so a map's entries have
    `Option` values. */
module Entries {
  import opened Wrappers
  import opened Seqs

  /** An immutable key-value pair, `AbstractMap.SimpleImmutableEntry`. */
  datatype Entry<K, V> = Entry(key: K, value: V)

  /** The keys of the entries, in order. */
  function Keys<K, V>(es: seq<Entry<K, V>>): (r: seq<K>)
    ensures |r| == |es| && forall i :: 0 <= i < |es| ==> r[i] == es[i].key
  {
    Map((e: Entry<K, V>) => e.key, es)
  }

  /** The set of keys the entries mention. */
  ghost function KeySet<K, V>(es: seq<Entry<K, V>>): set<K>
  {
    set e | e in es :: e.key
  }

  /** No key occurs twice, as in the entry set of a map. */
  ghost predicate DistinctKeys<K, V>(es: seq<Entry<K, V>>)
  {
    forall i, j :: 0 <= i < j < |es| ==> es[i].key != es[j].key
  }

  /** No entry has a `null` value. */
  ghost predicate NonNullValues<K, V>(es: seq<Entry<K, Option<V>>>)
  {
    forall i :: 0 <= i < |es| ==> es[i].value.Some?
  }

  /** The values given for key `k`, in encounter order. */
  ghost function ValuesFor<K, V>(es: seq<Entry<K, V>>, k: K): (r: seq<V>)
    ensures |r| <= |es|
    ensures |r| > 0 <==> k in KeySet(es)
  {
    if |es| == 0 then []
    else
      var init := es[..|es| - 1];
      var last := es[|es| - 1];
      assert es == init + [last];
      assert KeySet(es) == KeySet(init) + {last.key};
      ValuesFor(init, k) + if last.key == k then [last.value] else []
  }

  /** `es[i]` is the first entry with key `k`. */
  ghost predicate FirstFor<K, V>(es: seq<Entry<K, V>>, k: K, i: int)
  {
    0 <= i < |es| && es[i].key == k && forall j :: 0 <= j < i ==> es[j].key != k
  }

  // ---------------------------------------------------------------------
  // Laws

  /** Distinct keys are exactly as many as the entries. */
  lemma DistinctKeysCardinality<K, V>(es: seq<Entry<K, V>>)
    requires DistinctKeys(es)
    ensures |KeySet(es)| == |es|
  {
    var ks := Keys(es);
    assert NoDuplicates(ks);
    NoDuplicatesCardinality(ks);
    assert KeySet(es) == set k | k in ks by {
      forall k | k in ks ensures k in KeySet(es) {
        var i :| 0 <= i < |ks| && ks[i] == k;
        assert es[i] in es;
      }
    }
  }

  /** The values given for a key split over a concatenation. */
  lemma {:induction false} ValuesForAppend<K, V>(a: seq<Entry<K, V>>, b: seq<Entry<K, V>>, k: K)
    ensures ValuesFor(a + b, k) == ValuesFor(a, k) + ValuesFor(b, k)
  {
    if |b| == 0 {
      assert a + b == a;
    } else {
      var init := b[..|b| - 1];
      var last := b[|b| - 1];
      ValuesForAppend(a, init, k);
      assert (a + b)[..|a + b| - 1] == a + init;
      assert (a + b)[|a + b| - 1] == last;
      assert ValuesFor(a + b, k) == ValuesFor(a + init, k) + if last.key == k then [last.value] else [];
      assert ValuesFor(b, k) == ValuesFor(init, k) + if last.key == k then [last.value] else [];
    }
  }

  /** In a map's entries a key has at most one value. */
  lemma {:induction false} DistinctKeysOneValue<K, V>(es: seq<Entry<K, V>>, k: K)
    requires DistinctKeys(es)
    ensures |ValuesFor(es, k)| <= 1
    ensures forall i :: 0 <= i < |es| && es[i].key == k ==> ValuesFor(es, k) == [es[i].value]
  {
    if |es| > 0 {
      var init := es[..|es| - 1];
      assert forall i :: 0 <= i < |init| ==> init[i] == es[i];
      assert DistinctKeys(init);
      DistinctKeysOneValue(init, k);
    }
  }

  /** The first value given for a key is the value of its first entry. */
  lemma {:induction false} FirstValueIsFirstEntry<K, V>(es: seq<Entry<K, V>>, k: K)
    requires k in KeySet(es)
    ensures exists i :: FirstFor(es, k, i) && ValuesFor(es, k)[0] == es[i].value
  {
    var init := es[..|es| - 1];
    var last := es[|es| - 1];
    assert es == init + [last];
    assert KeySet(es) == KeySet(init) + {last.key};
    assert forall j :: 0 <= j < |init| ==> init[j] == es[j];
    if k in KeySet(init) {
      FirstValueIsFirstEntry(init, k);
      var i :| FirstFor(init, k, i) && ValuesFor(init, k)[0] == init[i].value;
      assert FirstFor(es, k, i);
    } else {
      assert ValuesFor(init, k) == [];
      assert forall j :: 0 <= j < |init| ==> init[j].key != k by {
        forall j | 0 <= j < |init| ensures init[j].key != k {
          assert init[j] in init;
        }
      }
      assert FirstFor(es, k, |es| - 1);
    }
  }

  /** The keys of a concatenation are the keys of its parts. */
  lemma KeySetAppend<K, V>(a: seq<Entry<K, V>>, b: seq<Entry<K, V>>)
    ensures KeySet(a + b) == KeySet(a) + KeySet(b)
  {
    assert forall e :: e in a + b <==> e in a || e in b;
  }

  /** A concatenation has distinct keys exactly when both parts do and no
      key is in both. */
  lemma DistinctKeysAppend<K, V>(a: seq<Entry<K, V>>, b: seq<Entry<K, V>>)
    ensures DistinctKeys(a + b) <==> DistinctKeys(a) && DistinctKeys(b) && KeySet(a) !! KeySet(b)
  {
    var ab := a + b;
    if DistinctKeys(ab) {
      assert forall i :: 0 <= i < |a| ==> ab[i] == a[i];
      assert forall i :: 0 <= i < |b| ==> ab[|a| + i] == b[i];
      forall i, j | 0 <= i < |a| && 0 <= j < |b| ensures a[i].key != b[j].key {
        assert ab[i].key != ab[|a| + j].key;
      }
      forall k | k in KeySet(a) ensures k !in KeySet(b) {
        var x :| x in a && x.key == k;
        var i :| 0 <= i < |a| && a[i] == x;
        assert forall j :: 0 <= j < |b| ==> b[j].key != k;
      }
    }
    if DistinctKeys(a) && DistinctKeys(b) && KeySet(a) !! KeySet(b) {
      forall i, j | 0 <= i < j < |ab| ensures ab[i].key != ab[j].key {
        if j < |a| {
          assert ab[i] == a[i] && ab[j] == a[j];
        } else if i >= |a| {
          assert ab[i] == b[i - |a|] && ab[j] == b[j - |a|];
        } else {
          assert ab[i] == a[i] && a[i] in a && a[i].key in KeySet(a);
          assert ab[j] == b[j - |a|] && b[j - |a|] in b && b[j - |a|].key in KeySet(b);
        }
      }
    }
  }

  /** A concatenation has no `null` value exactly when neither part has. */
  lemma NonNullValuesAppend<K, V>(a: seq<Entry<K, Option<V>>>, b: seq<Entry<K, Option<V>>>)
    ensures NonNullValues(a + b) <==> NonNullValues(a) && NonNullValues(b)
  {
    var ab := a + b;
    assert forall i :: 0 <= i < |a| ==> ab[i] == a[i];
    assert forall i :: 0 <= i < |b| ==> ab[|a| + i] == b[i];
  }
}
