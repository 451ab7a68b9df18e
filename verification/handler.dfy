/** `ChargingSessionsHandler`: the session store and its four operations, each
    one atomic step on an immutable table. The wall clock and the random id
    generator are the parameters `now` and `freshId`; the configured window
    bounds are `low` and `high`. */
module Handler {
  import opened Results
  import opened Uuids
  import opened Sessions
  import opened Tables

  /** The two exceptions the handler raises. */
  datatype Failure =
    | UnknownSession(id: Uuid)                           // IllegalStateException
    | WindowOutOfRange(seconds: int, low: int, high: int) // IllegalArgumentException
    | InvertedWindow(seconds: int)                       // IllegalArgumentException from `subMap`

  datatype Started = Started(table: Table, session: ChargingSession)

  datatype Stopped = Stopped(table: Table, session: ChargingSession)

  /** The invariant every reachable store satisfies: each session sits under
      its own (start time, id) key, keeps the lifecycle invariant, and no id
      occupies more than one cell. */
  predicate Consistent(t: Table) {
    && (forall k :: k in t ==> t[k].startedAt == k.0 && t[k].id == k.1 && WellFormed(t[k]))
    && (forall k, k' :: k in t && k' in t && k.1 == k'.1 ==> k == k')
  }

  /** `getAllChargingSessions`: every stored session once, in the table's key
      order, the store left as it is. */
  function GetAll(t: Table): (r: seq<ChargingSession>)
    ensures |r| == |t|
    ensures forall s :: s in r <==> s in t.Values
  {
    Values(t)
  }

  /** In a consistent store the listing is strictly ordered by (start time,
      id), so no session is listed twice. */
  lemma GetAllOrderedByStartThenId(t: Table)
    requires Consistent(t)
    ensures forall i, j :: 0 <= i < j < |GetAll(t)| ==>
      KeyLess((GetAll(t)[i].startedAt, GetAll(t)[i].id), (GetAll(t)[j].startedAt, GetAll(t)[j].id))
    ensures forall i, j :: 0 <= i < j < |GetAll(t)| ==> GetAll(t)[i] != GetAll(t)[j]
  {
    var ks := SortedKeys(t.Keys);
    var r := GetAll(t);
    assert r == Lookup(t, ks);
    forall i, j | 0 <= i < j < |r|
      ensures KeyLess((r[i].startedAt, r[i].id), (r[j].startedAt, r[j].id))
      ensures r[i] != r[j]
    {
      assert ks[i] in t && ks[j] in t;
      assert (r[i].startedAt, r[i].id) == ks[i];
      assert (r[j].startedAt, r[j].id) == ks[j];
      KeyLessIsStrictTotalOrder(ks[i], ks[j], ks[j]);
    }
  }

  /** `startChargingSession`: builds an in-progress session with the fresh id,
      the station id and the current time, and puts it under (now, id). */
  function Start(t: Table, stationId: string, now: Time, freshId: Uuid): (r: Started)
    ensures r.session == ChargingSession(freshId, stationId, now, None, InProgress)
    ensures (now, freshId) in r.table && r.table[(now, freshId)] == r.session
    ensures r.table.Keys == t.Keys + {(now, freshId)}
    ensures forall k :: k in t && k != (now, freshId) ==> r.table[k] == t[k]
    ensures (now, freshId) !in t ==> |r.table| == |t| + 1
  {
    var session := Build(With(NewBuilder, (b: Builder) =>
      b.(id := Some(freshId), stationId := Some(stationId), startedAt := Some(now), status := Some(InProgress))));
    var table := t[(now, freshId) := session];
    Started(table, table[(now, freshId)])
  }

  /** Starting with an id no cell uses adds exactly one cell and keeps the
      store consistent. */
  lemma StartPreservesConsistency(t: Table, stationId: string, now: Time, freshId: Uuid)
    requires Consistent(t)
    requires !ContainsColumn(t, freshId)
    ensures Consistent(Start(t, stationId, now, freshId).table)
  {
    forall k | k in t
      ensures k.1 != freshId
    {
      assert k !in Column(t, freshId);
    }
  }

  /** `stopChargingSession`: fails for an id with no cell; otherwise finishes
      every in-progress cell of that id's column at `now` and returns the
      column's first cell. */
  function Stop(t: Table, id: Uuid, now: Time): (r: Result<Stopped, Failure>)
    ensures r.Failure? <==> !ContainsColumn(t, id)
    ensures r.Failure? ==> r.error == UnknownSession(id)
    ensures r.Success? ==> r.value.table.Keys == t.Keys
    ensures r.Success? ==> forall k :: k in t && k.1 != id ==> r.value.table[k] == t[k]
    ensures r.Success? ==> forall k :: k in t && k.1 == id ==> r.value.table[k] == StopSession(t[k], now)
    ensures r.Success? ==> r.value.session.status == Finished
    ensures r.Success? ==> exists k :: IsLeast(k, Column(t, id)) && r.value.table[k] == r.value.session
  {
    if !ContainsColumn(t, id) then Failure(UnknownSession(id))
    else
      var table := map k | k in t :: if k.1 == id then StopSession(t[k], now) else t[k];
      assert Column(table, id) == Column(t, id);
      var first := Least(Column(table, id));
      Success(Stopped(table, table[first]))
  }

  /** In a consistent store, stopping a known id finishes exactly the session
      with that id: an in-progress one gets `now` as its stop time, a finished
      one keeps its stop time; the store stays consistent. */
  lemma StopInConsistentStore(t: Table, id: Uuid, now: Time)
    requires Consistent(t)
    requires ContainsColumn(t, id)
    ensures var k :| k in Column(t, id);
      && Column(t, id) == {k}
      && Stop(t, id, now).value.session == StopSession(t[k], now)
      && Stop(t, id, now).value.session.id == id
      && Stop(t, id, now).value.session.stoppedAt ==
           (if t[k].status == InProgress then Some(now) else t[k].stoppedAt)
    ensures Consistent(Stop(t, id, now).value.table)
  {
    var k :| k in Column(t, id);
    assert Column(t, id) == {k};
    var t' := Stop(t, id, now).value.table;
    forall k' | k' in t'
      ensures t'[k'].startedAt == k'.0 && t'[k'].id == k'.1 && WellFormed(t'[k'])
    {
      StopSessionIdempotent(t[k'], now, now);
    }
  }

  /** Stopping the same id twice: the second call succeeds, changes nothing and
      returns the same session, stop time included. */
  lemma StopIsIdempotent(t: Table, id: Uuid, first: Time, second: Time)
    requires Stop(t, id, first).Success?
    ensures var once := Stop(t, id, first).value;
      Stop(once.table, id, second) == Success(once)
  {
    var once := Stop(t, id, first).value;
    var twice := Stop(once.table, id, second);
    assert ContainsColumn(once.table, id) by {
      var k :| k in Column(t, id);
      assert k in Column(once.table, id);
    }
    var table := map k | k in once.table :: if k.1 == id then StopSession(once.table[k], second) else once.table[k];
    forall k | k in once.table
      ensures table[k] == once.table[k]
    {
      if k.1 == id {
        StopSessionIdempotent(t[k], first, second);
      }
    }
    assert table == once.table;
  }

  /** The keys of `rowMap.subMap(from, to)`: the lower bound is included,
      the upper bound excluded. */
  function WindowKeys(t: Table, from: Time, to: Time): (window: set<Key>)
    ensures window <= t.Keys
    ensures forall k :: k in t ==> (k in window <==> !(k.0 < from) && k.0 < to)
    ensures from >= to ==> window == {}
  {
    set k | k in t && from <= k.0 < to
  }

  /** The keys among `keys` whose session has status `st`. */
  function KeysWithStatus(t: Table, keys: set<Key>, st: Status): set<Key> {
    set k | k in keys && k in t && t[k].status == st
  }

  /** `Collectors.groupingBy(getStatus, counting())` over the sessions under
      `ks`, taken in order. */
  function CountByStatus(t: Table, ks: seq<Key>): (counts: map<Status, nat>)
    requires forall i :: 0 <= i < |ks| ==> ks[i] in t
    ensures forall st :: st in counts ==> counts[st] > 0
    ensures forall st :: st in counts ==> exists i :: 0 <= i < |ks| && t[ks[i]].status == st
    ensures GetOr(counts, InProgress, 0) + GetOr(counts, Finished, 0) == |ks|
  {
    if ks == [] then map[]
    else
      var prefix := CountByStatus(t, ks[..|ks| - 1]);
      var st := t[ks[|ks| - 1]].status;
      var grown := prefix[st := GetOr(prefix, st, 0) + 1];
      assert GetOr(grown, st, 0) == GetOr(prefix, st, 0) + 1;
      assert forall other :: other != st ==> GetOr(grown, other, 0) == GetOr(prefix, other, 0);
      grown
  }

  predicate Distinct(ks: seq<Key>) {
    forall i, j :: 0 <= i < j < |ks| ==> ks[i] != ks[j]
  }

  function SetOf(ks: seq<Key>): set<Key> {
    set k | k in ks
  }

  lemma SetOfSnoc(ks: seq<Key>)
    requires ks != []
    requires Distinct(ks)
    ensures SetOf(ks) == SetOf(ks[..|ks| - 1]) + {ks[|ks| - 1]}
    ensures ks[|ks| - 1] !in SetOf(ks[..|ks| - 1])
  {
    var front := ks[..|ks| - 1];
    assert ks == front + [ks[|ks| - 1]];
    forall i | 0 <= i < |front|
      ensures front[i] != ks[|ks| - 1]
    {
      assert front[i] == ks[i];
    }
  }

  lemma KeysWithStatusAdd(t: Table, keys: set<Key>, last: Key, st: Status)
    requires last in t && last !in keys
    ensures |KeysWithStatus(t, keys + {last}, st)| ==
      |KeysWithStatus(t, keys, st)| + (if t[last].status == st then 1 else 0)
  {
    var before := KeysWithStatus(t, keys, st);
    if t[last].status == st {
      assert KeysWithStatus(t, keys + {last}, st) == before + {last};
    } else {
      assert KeysWithStatus(t, keys + {last}, st) == before;
    }
  }

  /** Grouping distinct keys counts, per status, exactly the keys with that
      status. */
  lemma {:induction false} CountByStatusCounts(t: Table, ks: seq<Key>, st: Status)
    requires forall i :: 0 <= i < |ks| ==> ks[i] in t
    requires Distinct(ks)
    ensures GetOr(CountByStatus(t, ks), st, 0) == |KeysWithStatus(t, SetOf(ks), st)|
  {
    if ks == [] {
      assert KeysWithStatus(t, SetOf(ks), st) == {};
    } else {
      var front := ks[..|ks| - 1];
      var last := ks[|ks| - 1];
      CountByStatusCounts(t, front, st);
      SetOfSnoc(ks);
      KeysWithStatusAdd(t, SetOf(front), last, st);
    }
  }

  lemma SortedKeysAreDistinct(keys: set<Key>)
    ensures Distinct(SortedKeys(keys))
    ensures SetOf(SortedKeys(keys)) == keys
  {
    var ks := SortedKeys(keys);
    forall i, j | 0 <= i < j < |ks|
      ensures ks[i] != ks[j]
    {
      KeyLessIsStrictTotalOrder(ks[i], ks[j], ks[j]);
    }
  }

  /** Grouping the cells of any set of keys, taken in key order, counts each
      status exactly and records no status that does not occur. */
  lemma GroupedCountsAreExact(t: Table, keys: set<Key>)
    requires keys <= t.Keys
    ensures forall i :: 0 <= i < |SortedKeys(keys)| ==> SortedKeys(keys)[i] in t
    ensures forall st ::
      && (st in CountByStatus(t, SortedKeys(keys)) <==> |KeysWithStatus(t, keys, st)| > 0)
      && GetOr(CountByStatus(t, SortedKeys(keys)), st, 0) == |KeysWithStatus(t, keys, st)|
  {
    var ks := SortedKeys(keys);
    SortedKeysAreDistinct(keys);
    assert forall i :: 0 <= i < |ks| ==> ks[i] in t by {
      forall i | 0 <= i < |ks|
        ensures ks[i] in t
      {
        assert ks[i] in keys;
      }
    }
    forall st
      ensures st in CountByStatus(t, ks) <==> |KeysWithStatus(t, keys, st)| > 0
      ensures GetOr(CountByStatus(t, ks), st, 0) == |KeysWithStatus(t, keys, st)|
    {
      CountByStatusCounts(t, ks, st);
    }
  }

  /** The grouped counts of the sessions started in `[from, to)`, taken
      from the window's cells in key order. */
  function CountWindow(t: Table, from: Time, to: Time): (counts: map<Status, nat>)
    ensures forall st ::
      && (st in counts <==> |KeysWithStatus(t, WindowKeys(t, from, to), st)| > 0)
      && GetOr(counts, st, 0) == |KeysWithStatus(t, WindowKeys(t, from, to), st)|
    ensures GetOr(counts, InProgress, 0) + GetOr(counts, Finished, 0) == |WindowKeys(t, from, to)|
  {
    var window := WindowKeys(t, from, to);
    GroupedCountsAreExact(t, window);
    WindowSplitsByStatus(t, window);
    CountByStatus(t, SortedKeys(window))
  }

  /** `getChargingSessionSummary`: rejects a window outside `[low, high]`,
      otherwise counts by status the sessions whose start time lies in the
      half-open window `[now - seconds, now)`. A negative window that the
      bounds let through puts the sub-map's lower key above its upper key,
      which the sorted map rejects. */
  function Summarize(t: Table, seconds: int, low: int, high: int, now: Time): (r: Result<map<Status, nat>, Failure>)
    ensures r.Failure? <==> seconds < low || seconds > high || seconds < 0
    ensures seconds < low || seconds > high ==> r == Failure(WindowOutOfRange(seconds, low, high))
    ensures low <= seconds <= high && seconds < 0 ==> r == Failure(InvertedWindow(seconds))
    ensures r.Success? ==> forall st ::
      var window := WindowKeys(t, now - seconds * NanosPerSecond, now);
      && (st in r.value <==> |KeysWithStatus(t, window, st)| > 0)
      && GetOr(r.value, st, 0) == |KeysWithStatus(t, window, st)|
    ensures r.Success? ==>
      GetOr(r.value, InProgress, 0) + GetOr(r.value, Finished, 0) == |WindowKeys(t, now - seconds * NanosPerSecond, now)|
  {
    if !(seconds >= low && seconds <= high) then Failure(WindowOutOfRange(seconds, low, high))
    else if seconds < 0 then Failure(InvertedWindow(seconds))
    else Success(CountWindow(t, now - seconds * NanosPerSecond, now))
  }

  /** Every session in a set of keys is either in progress or finished. */
  lemma WindowSplitsByStatus(t: Table, keys: set<Key>)
    requires keys <= t.Keys
    ensures |KeysWithStatus(t, keys, InProgress)| + |KeysWithStatus(t, keys, Finished)| == |keys|
  {
    var open := KeysWithStatus(t, keys, InProgress);
    var done := KeysWithStatus(t, keys, Finished);
    assert open + done == keys;
    assert open * done == {};
  }
}
