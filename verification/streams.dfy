/** `NStreams`: conversions of optionals, iterables and iterators to
    (finite, sequential) streams, and null-skipping concatenation. */
module Streams {
  import opened Wrappers
  import opened Seqs

  /** `asStream(Optional)`: the optional's value as a one-element stream,
      or the empty stream. */
  function AsStreamOptional<T>(o: Option<T>): (r: seq<T>)
    ensures |r| <= 1
    ensures |r| == 1 <==> o.Some?
  {
    match o
    case None => []
    case Some(v) => [v]
  }

  /** `Stream.findFirst()` on a null-free stream, the inverse of
      `AsStreamOptional`. */
  function FindFirst<T>(s: seq<T>): Option<T>
  {
    if |s| == 0 then None else Some(s[0])
  }

  /** `asStream(Iterable)`: the iterable's elements in iteration order; a
      `null` iterable is the empty stream. */
  function AsStreamIterable<T>(it: Option<seq<T>>): (r: seq<T>)
    ensures it.None? ==> r == []
    ensures it.Some? ==> r == it.value
  {
    match it
    case None => []
    case Some(s) => s
  }

  /** `asStream(Iterator)`: the iterator is wrapped as the iterable
      `() -> iterator`; an iterator is modelled by the elements it has
      still to produce. */
  function AsStreamIterator<T>(remaining: seq<T>): (r: seq<T>)
    ensures |r| == |remaining| && forall i :: 0 <= i < |r| ==> r[i] == remaining[i]
  {
    AsStreamIterable(Some(remaining))
  }

  /** `concat(streams...)`: the `null` arguments are filtered out and the
      rest reduced with `Stream::concat`; `get()` on the empty reduction
      throws NoSuchElementException. */
  function Concat<T>(streams: seq<Option<seq<T>>>): (r: Result<seq<T>>)
    ensures r.Failure? <==> forall i :: 0 <= i < |streams| ==> streams[i].None?
    ensures r.Failure? ==> r.error == NoSuchElement
    ensures r.Success? ==> r.value == Flatten(Somes(streams))
  {
    var present := Somes(streams);
    assert |present| > 0 ==> Reduce(present, Join) == Some(Flatten(present)) by {
      if |present| > 0 { ReduceConcatIsFlatten(present); }
    }
    match Reduce(present, Join)
    case None => Failure(NoSuchElement)
    case Some(s) => Success(s)
  }

  /** `findFirst` recovers the optional a stream was made from. */
  lemma AsStreamOptionalRoundTrip<T>(o: Option<T>)
    ensures FindFirst(AsStreamOptional(o)) == o
  {
  }

  /** A present optional becomes exactly its value; an empty one nothing. */
  lemma AsStreamOptionalContents<T>(o: Option<T>)
    ensures o.Some? ==> AsStreamOptional(o) == [o.value]
    ensures o.None? ==> AsStreamOptional(o) == []
  {
  }

  /** A non-null iterable and an iterator over it yield the same stream. */
  lemma IterableAndIteratorAgree<T>(s: seq<T>)
    ensures AsStreamIterable(Some(s)) == s
    ensures AsStreamIterator(s) == s
  {
  }

  /** Concatenating only empty streams gives the empty stream, and a call
      without arguments throws. */
  lemma {:induction false} ConcatOfEmptyStreams<T>(streams: seq<Option<seq<T>>>)
    requires forall i :: 0 <= i < |streams| ==> streams[i] == Some([])
    ensures |streams| > 0 ==> Concat(streams) == Success([])
    ensures Concat<T>([]) == Failure(NoSuchElement)
  {
    FlattenOfEmpties(Somes(streams));
  }

  /** Joining empty sequences only gives the empty sequence. */
  lemma {:induction false} FlattenOfEmpties<T>(ss: seq<seq<T>>)
    requires forall i :: 0 <= i < |ss| ==> ss[i] == []
    ensures Flatten(ss) == []
  {
    if |ss| > 0 {
      FlattenOfEmpties(ss[..|ss| - 1]);
    }
  }

  /** `null` arguments are skipped: inserting one anywhere does not change
      the concatenation. */
  lemma {:induction false} ConcatSkipsNull<T>(a: seq<Option<seq<T>>>, b: seq<Option<seq<T>>>)
    ensures Concat(a + [None] + b) == Concat(a + b)
  {
    SomesOfAppend(a, [None]);
    SomesOfAppend(a + [None], b);
    SomesOfAppend(a, b);
    var nothing: seq<Option<seq<T>>> := [None];
    assert Somes(nothing) == [];
    var ab := a + b;
    var anb := a + [None] + b;
    assert (forall i :: 0 <= i < |anb| ==> anb[i].None?) <==> (forall i :: 0 <= i < |ab| ==> ab[i].None?) by {
      if forall i :: 0 <= i < |ab| ==> ab[i].None? {
        forall i | 0 <= i < |anb| ensures anb[i].None? {
          if i < |a| { assert anb[i] == ab[i]; }
          else if i > |a| { assert anb[i] == ab[i - 1]; }
        }
      }
      if forall i :: 0 <= i < |anb| ==> anb[i].None? {
        forall i | 0 <= i < |ab| ensures ab[i].None? {
          if i < |a| { assert anb[i] == ab[i]; }
          else { assert anb[i + 1] == ab[i]; }
        }
      }
    }
  }
}
