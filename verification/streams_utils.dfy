/** `NStreamsUtils`: the earlier `concat`, which does not skip `null`
    arguments. */
module StreamsUtils {
  import opened Wrappers
  import opened Seqs
  import Streams

  /** `Stream::concat` on possibly-null streams. `Stream.concat` calls
      `Objects.requireNonNull` on both operands, so `None` stands for the
      NullPointerException; once raised, nothing later in the reduction
      can undo it. */
  function JoinNonNull<T>(a: Option<seq<T>>, b: Option<seq<T>>): Option<seq<T>>
  {
    if a.Some? && b.Some? then Some(a.value + b.value) else None
  }

  /** `concat(streams...)`: `Stream.of(streams).reduce(Stream::concat).get()`.
      No arguments: `get()` on the empty reduction throws
      NoSuchElementException. A `null` argument reaches either
      `Stream.concat` or, when it is the only one, `Optional.of(null)`;
      both throw NullPointerException. */
  function Concat<T>(streams: seq<Option<seq<T>>>): (r: Result<seq<T>>)
    ensures |streams| == 0 <==> r == Failure(NoSuchElement)
    ensures |streams| > 0 && (exists i :: 0 <= i < |streams| && streams[i].None?) ==> r == Failure(NullPointer)
    ensures (forall i :: 0 <= i < |streams| ==> streams[i].Some?) && |streams| > 0 ==>
              r == Success(Flatten(Somes(streams)))
  {
    assert |streams| > 0 ==> Reduce(streams, JoinNonNull) == Some(JoinedOrNull(streams)) by {
      if |streams| > 0 { ReduceJoinNonNull(streams); }
    }
    var reduced: Option<Option<seq<T>>> := Reduce(streams, JoinNonNull);
    match reduced
    case None => Failure(NoSuchElement)
    case Some(None) => Failure(NullPointer)
    case Some(Some(s)) => Success(s)
  }

  /** What the reduction of a non-empty argument list evaluates to: the
      concatenation when every argument is non-null, else the exception. */
  ghost function JoinedOrNull<T>(streams: seq<Option<seq<T>>>): Option<seq<T>>
  {
    if forall i :: 0 <= i < |streams| ==> streams[i].Some? then Some(Flatten(Somes(streams))) else None
  }

  lemma {:induction false} ReduceJoinNonNull<T>(streams: seq<Option<seq<T>>>)
    requires |streams| > 0
    ensures Reduce(streams, JoinNonNull) == Some(JoinedOrNull(streams))
  {
    if |streams| == 1 {
      ReduceJoinSingle(streams);
    } else {
      var init := streams[..|streams| - 1];
      var last := streams[|streams| - 1];
      ReduceJoinNonNull(init);
      assert streams == init + [last];
      ReduceJoinStep(init, last);
    }
  }

  /** One argument reduces to itself. */
  lemma ReduceJoinSingle<T>(streams: seq<Option<seq<T>>>)
    requires |streams| == 1
    ensures Reduce(streams, JoinNonNull) == Some(JoinedOrNull(streams))
  {
    assert Reduce(streams, JoinNonNull) == Some(streams[0]);
    if streams[0].Some? {
      var v := streams[0].value;
      assert Somes(streams) == Somes(streams[..0]) + [v] == [v];
      assert Flatten([v]) == Flatten([v][..0]) + v == v;
      assert JoinedOrNull(streams) == Some(v);
    } else {
      assert JoinedOrNull(streams) == None;
    }
  }

  /** The last argument joins the reduction of the others. */
  lemma ReduceJoinStep<T>(init: seq<Option<seq<T>>>, last: Option<seq<T>>)
    requires |init| > 0
    requires Reduce(init, JoinNonNull) == Some(JoinedOrNull(init))
    ensures Reduce(init + [last], JoinNonNull) == Some(JoinedOrNull(init + [last]))
  {
    ReduceSnoc(init, last, JoinNonNull);
    JoinedOrNullSnoc(init, last);
  }

  /** `JoinedOrNull` of one more argument is `Stream::concat` of the
      earlier outcome and that argument. */
  lemma JoinedOrNullSnoc<T>(init: seq<Option<seq<T>>>, last: Option<seq<T>>)
    ensures JoinNonNull(JoinedOrNull(init), last) == JoinedOrNull(init + [last])
  {
    if last.None? {
      JoinLastNull(init, last);
    } else if forall i :: 0 <= i < |init| ==> init[i].Some? {
      JoinPresent(init, last.value, init + [last]);
    } else {
      var i :| 0 <= i < |init| && init[i].None?;
      JoinEarlierNull(init, last, i);
    }
  }

  /** A `null` last argument makes the whole reduction throw. */
  lemma JoinLastNull<T>(init: seq<Option<seq<T>>>, last: Option<seq<T>>)
    requires last.None?
    ensures JoinNonNull(JoinedOrNull(init), last) == None == JoinedOrNull(init + [last])
  {
    assert (init + [last])[|init|] == last;
  }

  /** A `null` among the earlier arguments makes the whole reduction throw. */
  lemma JoinEarlierNull<T>(init: seq<Option<seq<T>>>, last: Option<seq<T>>, i: nat)
    requires i < |init| && init[i].None?
    ensures JoinNonNull(JoinedOrNull(init), last) == None == JoinedOrNull(init + [last])
  {
    assert (init + [last])[i] == init[i];
  }

  /** Joining one more present stream onto the concatenation of present
      ones. */
  lemma JoinPresent<T>(init: seq<Option<seq<T>>>, v: seq<T>, streams: seq<Option<seq<T>>>)
    requires streams == init + [Some(v)]
    requires forall i :: 0 <= i < |streams| ==> streams[i].Some?
    ensures JoinNonNull(JoinedOrNull(init), Some(v)) == JoinedOrNull(streams)
  {
    assert forall i :: 0 <= i < |init| ==> init[i] == streams[i];
    assert JoinedOrNull(init) == Some(Flatten(Somes(init)));
    assert streams[..|streams| - 1] == init;
    assert Somes(streams) == Somes(init) + [v];
    FlattenOfAppend(Somes(init), v);
  }

  lemma FlattenOfAppend<T>(ss: seq<seq<T>>, s: seq<T>)
    ensures Flatten(ss + [s]) == Flatten(ss) + s
  {
    assert (ss + [s])[..|ss|] == ss;
  }

  /** On a non-empty argument list without `null`s this `concat` and the
      null-skipping `NStreams.concat` agree. */
  lemma AgreesWithNullSkippingConcat<T>(streams: seq<Option<seq<T>>>)
    requires |streams| > 0
    requires forall i :: 0 <= i < |streams| ==> streams[i].Some?
    ensures Concat(streams) == Streams.Concat(streams)
  {
  }

  /** Unlike `NStreams.concat`, a `null` among non-null arguments is an
      error here. */
  lemma NullArgumentIsAnError<T>(s: seq<T>)
    ensures Concat([Some(s), None]) == Failure(NullPointer)
    ensures Concat<T>([None]) == Failure(NullPointer)
    ensures Streams.Concat([Some(s), None]) == Success(s)
  {
    var args: seq<Option<seq<T>>> := [Some(s), None];
    assert args[1].None?;
    var single: seq<Option<seq<T>>> := [None];
    assert single[0].None?;
    assert Somes(args) == Somes(args[..1]) == Somes(args[..1][..0]) + [s];
    assert Flatten([s]) == Flatten([s][..0]) + s;
  }
}
