/** Sequence operations that stand for the `java.util.stream` pipeline steps
    the library is written with: `map`, `filter(Objects::nonNull)`,
    `flatMap`, `distinct` and the identity-less `reduce`. Every stream in the
    model is finite and sequential, so a stream is its `seq` of elements. */
module Seqs {
  import opened Wrappers

  /** `Stream.map`: `f` applied to every element, order kept. */
  function Map<A, B>(f: A -> B, s: seq<A>): (r: seq<B>)
    ensures |r| == |s|
    ensures forall i :: 0 <= i < |s| ==> r[i] == f(s[i])
  {
    seq(|s|, i requires 0 <= i < |s| => f(s[i]))
  }

  /** `Stream.filter`: the elements satisfying `p`, in encounter order. */
  function Filter<T>(p: T -> bool, s: seq<T>): (r: seq<T>)
    ensures |r| <= |s|
    ensures forall i :: 0 <= i < |r| ==> r[i] in s && p(r[i])
    ensures forall i :: 0 <= i < |s| && p(s[i]) ==> s[i] in r
  {
    if |s| == 0 then []
    else if p(s[|s| - 1]) then Filter(p, s[..|s| - 1]) + [s[|s| - 1]]
    else Filter(p, s[..|s| - 1])
  }

  /** `filter(Objects::nonNull)` followed by unboxing: the non-null
      elements, in encounter order. */
  function Somes<T>(s: seq<Option<T>>): (r: seq<T>)
    ensures |r| <= |s|
    ensures forall i :: 0 <= i < |r| ==> Some(r[i]) in s
    ensures forall i :: 0 <= i < |s| && s[i].Some? ==> s[i].value in r
  {
    if |s| == 0 then []
    else
      var init := Somes(s[..|s| - 1]);
      assert forall i :: 0 <= i < |s| - 1 ==> s[i] == s[..|s| - 1][i];
      match s[|s| - 1]
      case None => init
      case Some(x) => init + [x]
  }

  /** `flatMap(identity)`: the sequences joined in order. */
  function Flatten<T>(ss: seq<seq<T>>): seq<T>
  {
    if |ss| == 0 then [] else Flatten(ss[..|ss| - 1]) + ss[|ss| - 1]
  }

  /** `Stream.reduce(BinaryOperator)`: the left fold of `f` over a non-empty
      stream, and `Optional.empty()` for an empty one. */
  function Reduce<T>(s: seq<T>, f: (T, T) -> T): (r: Option<T>)
    ensures r.None? <==> |s| == 0
    ensures |s| == 1 ==> r == Some(s[0])
  {
    if |s| == 0 then None
    else if |s| == 1 then Some(s[0])
    else Some(f(Reduce(s[..|s| - 1], f).value, s[|s| - 1]))
  }

  /** No element occurs twice. */
  ghost predicate NoDuplicates<T>(s: seq<T>)
  {
    forall i, j :: 0 <= i < j < |s| ==> s[i] != s[j]
  }

  /** `Stream.distinct`: the first occurrence of every element, in
      encounter order. */
  function Distinct<T(==)>(s: seq<T>): (r: seq<T>)
    ensures NoDuplicates(r)
    ensures forall i :: 0 <= i < |r| ==> r[i] in s
    ensures forall i :: 0 <= i < |s| ==> s[i] in r
  {
    if |s| == 0 then []
    else
      var d := Distinct(s[..|s| - 1]);
      assert forall i :: 0 <= i < |s| - 1 ==> s[i] == s[..|s| - 1][i];
      if s[|s| - 1] in d then d else d + [s[|s| - 1]]
  }

  /** Membership in a concatenation is membership in one of its parts. */
  lemma {:induction false} FlattenMembership<T>(ss: seq<seq<T>>, x: T)
    ensures x in Flatten(ss) <==> exists i :: 0 <= i < |ss| && x in ss[i]
  {
    if |ss| > 0 {
      FlattenMembership(ss[..|ss| - 1], x);
      assert forall i :: 0 <= i < |ss| - 1 ==> ss[..|ss| - 1][i] == ss[i];
    }
  }

  /** `Stream::concat` as a binary operator on finite streams. */
  function Join<T>(a: seq<T>, b: seq<T>): seq<T>
  {
    a + b
  }

  /** Reducing a non-empty stream of sequences with `Stream::concat` is
      their in-order concatenation. */
  lemma {:induction false} ReduceConcatIsFlatten<T>(ss: seq<seq<T>>)
    requires |ss| > 0
    ensures Reduce(ss, Join) == Some(Flatten(ss))
  {
    if |ss| == 1 {
      assert ss[..0] == [];
      assert Flatten(ss) == Flatten(ss[..0]) + ss[0] == [] + ss[0];
      assert Flatten(ss) == ss[0];
      assert Reduce(ss, Join) == Some(ss[0]);
    } else {
      ReduceConcatIsFlatten(ss[..|ss| - 1]);
    }
  }

  /** A sequence without repetitions has as many distinct elements as it
      has positions. */
  lemma {:induction false} NoDuplicatesCardinality<T>(s: seq<T>)
    requires NoDuplicates(s)
    ensures |set x | x in s| == |s|
  {
    if |s| > 0 {
      var init := s[..|s| - 1];
      NoDuplicatesCardinality(init);
      assert (set x | x in s) == (set x | x in init) + {s[|s| - 1]};
      assert s[|s| - 1] !in init;
    }
  }

  /** The number of distinct elements of any sequence is the length of its
      `distinct()` stream. */
  lemma DistinctCountsElements<T>(s: seq<T>)
    ensures |set x | x in s| == |Distinct(s)|
  {
    var d := Distinct(s);
    NoDuplicatesCardinality(d);
    assert (set x | x in s) == (set x | x in d);
  }

  /** `filter(Objects::nonNull)` distributes over concatenation. */
  lemma {:induction false} SomesOfAppend<T>(a: seq<Option<T>>, b: seq<Option<T>>)
    ensures Somes(a + b) == Somes(a) + Somes(b)
  {
    if |b| > 0 {
      SomesOfAppend(a, b[..|b| - 1]);
      assert (a + b)[..|a + b| - 1] == a + b[..|b| - 1];
    } else {
      assert a + b == a;
    }
  }

  /** Reducing one more element applies `f` to the earlier result and the
      new element. */
  lemma ReduceSnoc<T>(s: seq<T>, x: T, f: (T, T) -> T)
    requires |s| > 0
    ensures Reduce(s + [x], f) == Some(f(Reduce(s, f).value, x))
  {
    assert (s + [x])[..|s|] == s;
  }

  /** The first non-null element of a stream that starts with a non-null
      one is that element. */
  lemma {:induction false} SomesFirst<T>(s: seq<Option<T>>)
    requires |s| > 0 && s[0].Some?
    ensures |Somes(s)| > 0 && Somes(s)[0] == s[0].value
  {
    if |s| > 1 {
      SomesFirst(s[..|s| - 1]);
    }
  }

  /** `(a, b) -> a`: keeps the earlier of two values. */
  function KeepFirst<T>(a: T, b: T): T
  {
    a
  }

  /** Reducing with `(a, b) -> a` gives the first element. */
  lemma {:induction false} ReduceKeepFirst<T>(s: seq<T>)
    requires |s| > 0
    ensures Reduce(s, KeepFirst) == Some(s[0])
  {
    if |s| > 1 {
      ReduceKeepFirst(s[..|s| - 1]);
    }
  }

  /** `flatMap` over one-element streams gives back the elements. */
  lemma {:induction false} FlattenSingletons<T>(s: seq<T>)
    ensures Flatten(Map((x: T) => [x], s)) == s
  {
    if |s| > 0 {
      var init := s[..|s| - 1];
      FlattenSingletons(init);
      assert Map((x: T) => [x], s)[..|s| - 1] == Map((x: T) => [x], init);
    }
  }
}
