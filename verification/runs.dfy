/** Sequences of handler calls: the invariants every reachable store keeps,
    batches of starts, and the summary the controller renders from the
    handler's counts. */
module Runs {
  import opened Results
  import opened Longs
  import opened Uuids
  import opened Sessions
  import opened Tables
  import opened Handler
  import Summary

  /** One state-changing handler call, with the clock reading (and, for a
      start, the generated id) it used. Listing and summarizing read the store
      without changing it. */
  datatype Op =
    | StartOp(stationId: string, now: Time, freshId: Uuid)
    | StopOp(id: Uuid, now: Time)

  /** The store after one call; a stop that raised leaves it as it was. */
  function Step(t: Table, op: Op): Table {
    match op
    case StartOp(stationId, now, freshId) => Start(t, stationId, now, freshId).table
    case StopOp(id, now) =>
      match Stop(t, id, now)
      case Success(stopped) => stopped.table
      case Failure(_) => t
  }

  function Run(t: Table, ops: seq<Op>): Table
    decreases |ops|
  {
    if ops == [] then t else Run(Step(t, ops[0]), ops[1..])
  }

  /** Every generated id is new to the store it is started in. */
  predicate FreshStarts(t: Table, ops: seq<Op>)
    decreases |ops|
  {
    ops == [] ||
    ((ops[0].StartOp? ==> !ContainsColumn(t, ops[0].freshId)) && FreshStarts(Step(t, ops[0]), ops[1..]))
  }

  /** The clock never runs backwards across the calls. */
  predicate ClockMonotone(ops: seq<Op>) {
    forall i, j :: 0 <= i < j < |ops| ==> ops[i].now <= ops[j].now
  }

  /** No session started after `clock`, and every stop time is no earlier than
      its start time. */
  predicate Chronological(t: Table, clock: Time) {
    forall k :: k in t ==>
      t[k].startedAt <= clock && (t[k].stoppedAt.Some? ==> t[k].startedAt <= t[k].stoppedAt.value)
  }

  /** A stop that raised changes nothing. */
  lemma UnknownStopLeavesStore(t: Table, id: Uuid, now: Time)
    requires !ContainsColumn(t, id)
    ensures Step(t, StopOp(id, now)) == t
    ensures Stop(t, id, now) == Failure(UnknownSession(id))
  {
  }

  lemma StepPreservesConsistency(t: Table, op: Op)
    requires Consistent(t)
    requires op.StartOp? ==> !ContainsColumn(t, op.freshId)
    ensures Consistent(Step(t, op))
  {
    match op
    case StartOp(stationId, now, freshId) =>
      StartPreservesConsistency(t, stationId, now, freshId);
    case StopOp(id, now) =>
      if ContainsColumn(t, id) {
        StopInConsistentStore(t, id, now);
      }
  }

  lemma {:induction false} RunPreservesConsistency(t: Table, ops: seq<Op>)
    requires Consistent(t)
    requires FreshStarts(t, ops)
    ensures Consistent(Run(t, ops))
    decreases |ops|
  {
    if ops != [] {
      StepPreservesConsistency(t, ops[0]);
      RunPreservesConsistency(Step(t, ops[0]), ops[1..]);
    }
  }

  /** Every store reachable from the empty one by calls with fresh ids holds
      each session under its own key, once per id, with a stop time exactly
      when it is finished. */
  lemma ReachableStoresAreConsistent(ops: seq<Op>)
    requires FreshStarts(map[], ops)
    ensures Consistent(Run(map[], ops))
    ensures forall k :: k in Run(map[], ops) ==>
      (Run(map[], ops)[k].stoppedAt.Some? <==> Run(map[], ops)[k].status == Finished)
  {
    RunPreservesConsistency(map[], ops);
  }

  /** No call removes a cell, changes a stored session's id, station id or
      start time, or reopens a finished session. */
  lemma StepKeepsIdentities(t: Table, op: Op)
    requires op.StartOp? ==> !ContainsColumn(t, op.freshId)
    ensures forall k :: k in t ==>
      && k in Step(t, op)
      && Step(t, op)[k].id == t[k].id
      && Step(t, op)[k].stationId == t[k].stationId
      && Step(t, op)[k].startedAt == t[k].startedAt
      && (t[k].status == Finished ==> Step(t, op)[k] == t[k])
  {
    if op.StartOp? {
      forall k | k in t
        ensures k != (op.now, op.freshId)
      {
        assert k !in Column(t, op.freshId);
      }
    }
  }

  lemma StepKeepsChronology(t: Table, clock: Time, op: Op)
    requires Chronological(t, clock)
    requires clock <= op.now
    ensures Chronological(Step(t, op), op.now)
  {
    match op
    case StartOp(stationId, now, freshId) =>
      var t' := Start(t, stationId, now, freshId).table;
      forall k | k in t'
        ensures t'[k].startedAt <= now
        ensures t'[k].stoppedAt.Some? ==> t'[k].startedAt <= t'[k].stoppedAt.value
      {
        if k != (now, freshId) {
          assert t'[k] == t[k];
        }
      }
    case StopOp(id, now) =>
      if ContainsColumn(t, id) {
        var t' := Stop(t, id, now).value.table;
        forall k | k in t'
          ensures t'[k].startedAt <= now
          ensures t'[k].stoppedAt.Some? ==> t'[k].startedAt <= t'[k].stoppedAt.value
        {
          assert k in t;
          if k.1 == id {
            assert t'[k] == StopSession(t[k], now);
          } else {
            assert t'[k] == t[k];
          }
        }
      }
  }

  lemma {:induction false} RunKeepsChronology(t: Table, clock: Time, ops: seq<Op>)
    requires Chronological(t, clock)
    requires ClockMonotone(ops)
    requires ops != [] ==> clock <= ops[0].now
    ensures forall k :: k in Run(t, ops) && Run(t, ops)[k].stoppedAt.Some? ==>
      Run(t, ops)[k].startedAt <= Run(t, ops)[k].stoppedAt.value
    decreases |ops|
  {
    if ops != [] {
      StepKeepsChronology(t, clock, ops[0]);
      var rest := ops[1..];
      assert ClockMonotone(rest) by {
        forall i, j | 0 <= i < j < |rest|
          ensures rest[i].now <= rest[j].now
        {
          assert rest[i] == ops[i + 1] && rest[j] == ops[j + 1];
        }
      }
      if rest != [] {
        assert rest[0] == ops[1];
      }
      RunKeepsChronology(Step(t, ops[0]), ops[0].now, rest);
    }
  }

  /** With a clock that never runs backwards, no session stops before it
      started. */
  lemma ReachableStopTimesFollowStarts(ops: seq<Op>)
    requires ClockMonotone(ops)
    ensures forall k :: k in Run(map[], ops) && Run(map[], ops)[k].stoppedAt.Some? ==>
      Run(map[], ops)[k].startedAt <= Run(map[], ops)[k].stoppedAt.value
  {
    if ops != [] {
      RunKeepsChronology(map[], ops[0].now, ops);
    }
  }

  /** A batch made only of start calls. */
  predicate StartBatch(ops: seq<Op>) {
    forall i :: 0 <= i < |ops| ==> ops[i].StartOp?
  }

  /** No two start calls of `ops` use the same id. */
  predicate DistinctIds(ops: seq<Op>) {
    forall i, j :: 0 <= i < j < |ops| && ops[i].StartOp? && ops[j].StartOp? ==> ops[i].freshId != ops[j].freshId
  }

  /** Every id the start calls of `ops` use is new to `t`. */
  predicate NewTo(t: Table, ops: seq<Op>) {
    forall i :: 0 <= i < |ops| && ops[i].StartOp? ==> !ContainsColumn(t, ops[i].freshId)
  }

  /** The session a start call creates. */
  function Opened(op: Op): ChargingSession
    requires op.StartOp?
  {
    ChargingSession(op.freshId, op.stationId, op.now, None, InProgress)
  }

  /** The sessions a batch of starts creates, in call order. */
  function Openings(ops: seq<Op>): (r: seq<ChargingSession>)
    requires StartBatch(ops)
    ensures |r| == |ops|
    ensures forall i :: 0 <= i < |ops| ==> r[i] == Opened(ops[i])
  {
    seq(|ops|, i requires 0 <= i < |ops| => Opened(ops[i]))
  }

  /** After one fresh start, the ids of the remaining calls are still new. */
  lemma StartKeepsRestFresh(t: Table, ops: seq<Op>)
    requires ops != [] && StartBatch(ops)
    requires NewTo(t, ops) && DistinctIds(ops)
    ensures StartBatch(ops[1..])
    ensures NewTo(Step(t, ops[0]), ops[1..])
    ensures DistinctIds(ops[1..])
  {
    var rest := ops[1..];
    var t1 := Step(t, ops[0]);
    assert t1 == Start(t, ops[0].stationId, ops[0].now, ops[0].freshId).table;
    forall j | 0 <= j < |rest|
      ensures !ContainsColumn(t1, rest[j].freshId)
    {
      var id := rest[j].freshId;
      assert ops[j + 1] == rest[j];
      forall k | k in t1
        ensures k.1 != id
      {
        assert k !in Column(t, id);
      }
      assert Column(t1, id) == {};
    }
    forall i, j | 0 <= i < j < |rest|
      ensures rest[i].freshId != rest[j].freshId
    {
      assert rest[i] == ops[i + 1] && rest[j] == ops[j + 1];
    }
  }

  /** A start under a new key adds exactly its session to the stored values. */
  lemma StartAddsOneValue(t: Table, op: Op)
    requires op.StartOp? && !ContainsColumn(t, op.freshId)
    ensures (op.now, op.freshId) !in t
    ensures forall s :: s in Step(t, op).Values <==> (s in t.Values || s == Opened(op))
  {
    var key := (op.now, op.freshId);
    var t1 := Step(t, op);
    assert t1 == Start(t, op.stationId, op.now, op.freshId).table;
    assert key !in Column(t, op.freshId);
    forall s
      ensures s in t1.Values <==> (s in t.Values || s == Opened(op))
    {
      if s in t.Values {
        var k :| k in t && t[k] == s;
        assert t1[k] == s;
      }
      if s == Opened(op) {
        assert t1[key] == s;
      }
    }
  }

  /** A batch of starts whose ids are new and pairwise distinct adds one cell
      per call, holding exactly the sessions the calls describe, and keeps the
      cells already there. */
  lemma {:induction false} StartAllAdds(t: Table, ops: seq<Op>)
    requires StartBatch(ops)
    requires NewTo(t, ops) && DistinctIds(ops)
    ensures |Run(t, ops)| == |t| + |ops|
    ensures forall s :: s in Run(t, ops).Values <==> (s in t.Values || s in Openings(ops))
    decreases |ops|
  {
    if ops != [] {
      StartAddsOneValue(t, ops[0]);
      StartKeepsRestFresh(t, ops);
      StartAllAdds(Step(t, ops[0]), ops[1..]);
      assert Openings(ops) == [Opened(ops[0])] + Openings(ops[1..]);
    }
  }

  /** A listing holding exactly the sessions of a batch of starts shows only
      in-progress sessions, and exactly the requested station ids. */
  lemma ListingOfOpenings(all: seq<ChargingSession>, ops: seq<Op>)
    requires StartBatch(ops)
    requires forall s :: s in all <==> s in Openings(ops)
    ensures forall s :: s in all ==> s.status == InProgress && s.stoppedAt == None
    ensures (set s | s in all :: s.stationId) == (set op | op in ops && op.StartOp? :: op.stationId)
  {
    var created := Openings(ops);
    forall s | s in all
      ensures s.status == InProgress && s.stoppedAt == None
      ensures s.stationId in (set op | op in ops && op.StartOp? :: op.stationId)
    {
      var i :| 0 <= i < |created| && created[i] == s;
      assert ops[i] in ops;
    }
    forall op | op in ops && op.StartOp?
      ensures op.stationId in (set s | s in all :: s.stationId)
    {
      var i :| 0 <= i < |ops| && ops[i] == op;
      assert created[i] in all;
    }
  }

  /** Starting a batch in an empty store lists one in-progress session per
      call, none with a stop time, whose station ids are exactly the
      requested ones. */
  lemma StartsFromEmpty(ops: seq<Op>)
    requires StartBatch(ops)
    requires DistinctIds(ops)
    ensures |GetAll(Run(map[], ops))| == |ops|
    ensures forall s :: s in GetAll(Run(map[], ops)) ==> s.status == InProgress && s.stoppedAt == None
    ensures (set s | s in GetAll(Run(map[], ops)) :: s.stationId) == (set op | op in ops && op.StartOp? :: op.stationId)
  {
    var empty: Table := map[];
    assert NewTo(empty, ops) by {
      forall i | 0 <= i < |ops|
        ensures !ContainsColumn(empty, ops[i].freshId)
      {
        assert Column(empty, ops[i].freshId) == {};
      }
    }
    StartAllAdds(empty, ops);
    var all := GetAll(Run(empty, ops));
    assert forall s :: s !in empty.Values;
    ListingOfOpenings(all, ops);
  }

  /** The handler's counts as the `Long` values the summary reads. */
  function AsLongs(counts: map<Status, nat>): (r: map<Status, Long>)
    requires forall st :: st in counts ==> counts[st] <= MaxLong as int
    ensures r.Keys == counts.Keys
    ensures forall st :: st in counts ==> r[st] as int == counts[st]
  {
    map st | st in counts :: counts[st] as Long
  }

  /** The summary endpoint: the handler's counts fed to the summary report the
      in-progress and finished sessions started in the window, and their total
      is the number of sessions in the window. */
  lemma SummaryReportsWindow(t: Table, seconds: int, low: int, high: int, now: Time)
    requires low <= seconds <= high && 0 <= seconds
    requires |t| <= MaxLong as int
    ensures var window := WindowKeys(t, now - seconds * NanosPerSecond, now);
      var counts := Summarize(t, seconds, low, high, now).value;
      && (forall st :: st in counts ==> counts[st] <= MaxLong as int)
      && var summary := Summary.FromMap(Some(AsLongs(counts))).value;
      && summary.startedCount as int == |KeysWithStatus(t, window, InProgress)|
      && summary.stoppedCount as int == |KeysWithStatus(t, window, Finished)|
      && summary.totalCount as int == |window|
  {
    var window := WindowKeys(t, now - seconds * NanosPerSecond, now);
    var counts := Summarize(t, seconds, low, high, now).value;
    assert t.Keys == window + (t.Keys - window);
    WindowSplitsByStatus(t, window);
    var longs := AsLongs(counts);
    assert GetOr(longs, InProgress, 0) as int == GetOr(counts, InProgress, 0);
    assert GetOr(longs, Finished, 0) as int == GetOr(counts, Finished, 0);
  }
}
