# Charging-session store — a Dafny model

This project models the core of the charging-session service: the in-memory session store (`ChargingSessionsHandler`), the session entity with its two-state lifecycle (`ChargingSession`, `StatusEnum`), and the summary projection (`ChargingSessionSummary`).

The store is a table keyed by (start time, session id). It supports four operations:
- start a session;
- list every session;
- stop a session by id;
- count sessions by status over the trailing window `[now - seconds, now)`.

Each operation is one atomic step on an immutable `map<(Time, Uuid), ChargingSession>`. The wall clock (`LocalDateTime.now()`) and the id generator (`UUID.randomUUID()`) become the explicit parameters `now` and `freshId`. The configured window bounds (`seconds.lower.limit`, `seconds.higher.limit`) become `low` and `high`. The tests imply the bounds 1 and 60: they reject 0, -1 and 61 and accept 1 and 60.

Modules, one per file:
- `Results` (`results.dfy`): `Option` for nullable references; `Result` for operations that may raise.
- `Longs` (`longs.dfy`): Java's `long`, with two's-complement addition written out.
- `Uuids` (`uuids.dfy`): a UUID as its two signed 64-bit halves. They are ordered as `UUID.compareTo` orders them: most significant half first, signed.
- `Sessions` (`sessions.dfy`): `Status`, `ChargingSession`, the builder, the setters, and one session's stop step.
- `Tables` (`tables.dfy`): the ordering of Guava's `TreeBasedTable`. This covers the least key of a key set, the sorted key list, and `values()` in key order.
- `Handler` (`handler.dfy`): the four operations and the store invariant.
- `Summary` (`summary.dfy`): `ChargingSessionSummary` built from a status-to-count map.
- `Runs` (`runs.dfy`): sequences of calls. It holds:
  - the invariants every reachable store keeps;
  - batches of starts;
  - the summary endpoint composed from the handler and the summary.

Behaviour of the code worth stating, because its documentation or a first reading suggests otherwise:
- Stopping an unknown id raises `IllegalStateException`, from `Assert.state`. The Javadoc says `IllegalArgumentException`. The model's failure is `UnknownSession`.
- `getAllChargingSessions` documents no order. The code returns `TreeBasedTable.values()`, which is ordered by start time and then by id. `GetAll` keeps that order, and `GetAllOrderedByStartThenId` proves it.
- Nothing in the code forces a stop time to be at or after its start time. `Runs.ReachableStopTimesFollowStarts` proves it only for clock readings that never go backwards.
- `getChargingSessionSummary` passes `now - seconds` and `now` to `SortedMap.subMap`. That call rejects a lower key above the upper key with `IllegalArgumentException`. A negative `seconds` accepted by the configured bounds therefore fails. `Summarize` models this as `InvertedWindow`. It cannot happen with the bounds 1 and 60.

## Model

| member | source | states |
|---|---|---|
| Sessions.Build | src/main/java/com/ajai/chargingsession/charging/session/ChargingSession.java:91-93 | the built session carries exactly the builder's id, station id, start time, stop time and status |
| Sessions.BuildLoadRoundTrip | src/main/java/com/ajai/chargingsession/charging/session/ChargingSession.java:81-93 | a new builder configured through `with` with all of a session's fields builds that same session back |
| Sessions.UnsetStopTimeBuildsOpenSession | src/main/java/com/ajai/chargingsession/charging/session/ChargingSession.java:69-93 | a configuring function that never sets `stoppedAt` yields a session with no stop time |
| Sessions.SetStationId | src/main/java/com/ajai/chargingsession/charging/session/ChargingSession.java:121-123 | the station id takes the new value and every other field is unchanged |
| Sessions.SetStoppedAt | src/main/java/com/ajai/chargingsession/charging/session/ChargingSession.java:148-150 | the stop time takes the new value and every other field is unchanged |
| Sessions.SetStatus | src/main/java/com/ajai/chargingsession/charging/session/ChargingSession.java:167-169 | the status takes the new value and every other field is unchanged |
| Sessions.SettersCommute | src/main/java/com/ajai/chargingsession/charging/session/ChargingSession.java:121-169 | the setters touch disjoint fields: they commute, and re-setting a field's own value is a no-op |
| Sessions.StopSession | src/main/java/com/ajai/chargingsession/charging/handlers/ChargingSessionsHandler.java:121-127 | one stopped session is always finished; an in-progress one gets `now` as its stop time; a finished one is returned unchanged; id, station and start time are kept |
| Sessions.StopSessionIdempotent | src/main/java/com/ajai/chargingsession/charging/handlers/ChargingSessionsHandler.java:122-125 | stopping twice equals stopping once, whatever the second clock reading; stopping keeps "stop time present iff finished" |
| Longs.WrapAdd | src/main/java/com/ajai/chargingsession/charging/session/ChargingSessionSummary.java:41 | the `long` sum equals the true sum when that fits in 64 bits and is congruent to it modulo 2^64 otherwise |
| Tables.Least | src/main/java/com/ajai/chargingsession/charging/handlers/ChargingSessionsHandler.java:133 | the key chosen is in the set and precedes every other key of it in (start time, id) order, the first cell `iterator().next()` reaches |
| Tables.LeastExists | src/main/java/com/ajai/chargingsession/charging/handlers/ChargingSessionsHandler.java:133 | every non-empty key set has a first key in (start time, id) order, so a column's first cell exists |
| Tables.SortedKeys | src/main/java/com/ajai/chargingsession/charging/handlers/ChargingSessionsHandler.java:69 | the table's key order lists every key of the set exactly once, strictly ascending by (start time, id) |
| Tables.Values | src/main/java/com/ajai/chargingsession/charging/handlers/ChargingSessionsHandler.java:69 | `values()` has one element per cell, and a session is listed iff some cell holds it |
| Tables.ContainsColumn | src/main/java/com/ajai/chargingsession/charging/handlers/ChargingSessionsHandler.java:117 | `containsColumn(id)` holds iff some stored key has that id |
| Handler.GetAll | src/main/java/com/ajai/chargingsession/charging/handlers/ChargingSessionsHandler.java:65-73 | the listing has one session per stored entry and holds exactly the stored sessions; the store is not changed |
| Handler.GetAllOrderedByStartThenId | src/main/java/com/ajai/chargingsession/charging/handlers/ChargingSessionsHandler.java:65-73 | in a consistent store the listing is strictly ascending by (start time, id), so no session is listed twice |
| Handler.Start | src/main/java/com/ajai/chargingsession/charging/handlers/ChargingSessionsHandler.java:82-103 | the returned session has the fresh id, the given station, start time `now`, status in progress and no stop time, and is the one stored under (now, id); every other entry is unchanged; a new key adds exactly one entry |
| Handler.StartPreservesConsistency | src/main/java/com/ajai/chargingsession/charging/handlers/ChargingSessionsHandler.java:86-96 | starting with an id no cell uses keeps every session under its own key, keeps ids unique and keeps "stop time iff finished" |
| Handler.Stop | src/main/java/com/ajai/chargingsession/charging/handlers/ChargingSessionsHandler.java:113-138 | fails with `UnknownSession` exactly when no cell has that id; otherwise the keys are unchanged, cells of other ids are unchanged, each cell of that id is stopped, and the returned session is finished and is the one held by the column's first cell in start-time order |
| Handler.StopInConsistentStore | src/main/java/com/ajai/chargingsession/charging/handlers/ChargingSessionsHandler.java:117-133 | in a consistent store the id has exactly one cell; the returned session has that id, with stop time `now` if it was in progress and its old stop time if it was finished; the store stays consistent |
| Handler.StopIsIdempotent | src/main/java/com/ajai/chargingsession/charging/handlers/ChargingSessionsHandler.java:120-133 | a second stop of the same id succeeds, leaves the store unchanged and returns the same session, stop time included |
| Handler.CountByStatusCounts | src/main/java/com/ajai/chargingsession/charging/handlers/ChargingSessionsHandler.java:164-165 | grouping distinct keys in order counts, for each status, exactly the keys whose session has that status |
| Handler.WindowKeys | src/main/java/com/ajai/chargingsession/charging/handlers/ChargingSessionsHandler.java:161-162 | `subMap(from, to)` keeps exactly the stored keys with `from <= startedAt < to`, lower bound included and upper excluded, and is empty when `from >= to` |
| Handler.CountByStatus | src/main/java/com/ajai/chargingsession/charging/handlers/ChargingSessionsHandler.java:164-165 | grouping keeps only statuses that occur among the grouped cells, each with a positive count, and the in-progress and finished counts add up to the number of cells grouped |
| Handler.GroupedCountsAreExact | src/main/java/com/ajai/chargingsession/charging/handlers/ChargingSessionsHandler.java:161-165 | for the sorted cells of any key set, a status has an entry iff it occurs, and its count is the number of cells with that status |
| Handler.WindowSplitsByStatus | src/main/java/com/ajai/chargingsession/charging/session/StatusEnum.java:16 | every session is in progress or finished, so the two counts add up to the window's size |
| Handler.CountWindow | src/main/java/com/ajai/chargingsession/charging/handlers/ChargingSessionsHandler.java:156-165 | the counts of the sessions started in `[from, to)`: exact per status, only for statuses that occur, summing to the number of such sessions |
| Handler.Summarize | src/main/java/com/ajai/chargingsession/charging/handlers/ChargingSessionsHandler.java:148-170 | fails with `WindowOutOfRange` iff seconds < low or seconds > high, and with `InvertedWindow` for a negative window the bounds allow; otherwise counts exactly the sessions with `now - seconds <= startedAt < now` by status, with no zero entries (so an empty window gives an empty map), the counts summing to the window's size |
| Summary.FromMap | src/main/java/com/ajai/chargingsession/charging/session/ChargingSessionSummary.java:35-42 | a null map is rejected; started is the in-progress value or 0, stopped is the finished value or 0; total is their `long` sum, exact when it fits |
| Summary.EmptyMapGivesZeros | src/test/java/com/ajai/chargingsession/test/charging/controller/ChargingSessionControllerTest.java:180-186 | an empty map gives total 0, started 0, stopped 0 |
| Summary.OneOfEachGivesTwo | src/test/java/com/ajai/chargingsession/test/charging/controller/ChargingSessionControllerTest.java:163-177 | `{IN_PROGRESS: 1, FINISHED: 1}` gives total 2, started 1, stopped 1 |
| Runs.UnknownStopLeavesStore | src/main/java/com/ajai/chargingsession/charging/handlers/ChargingSessionsHandler.java:117-118 | stopping an id with no cell raises `UnknownSession` and leaves the store as it was |
| Runs.StepPreservesConsistency | src/main/java/com/ajai/chargingsession/charging/handlers/ChargingSessionsHandler.java:84-131 | one start (with a fresh id) or stop keeps the store consistent |
| Runs.RunPreservesConsistency | src/main/java/com/ajai/chargingsession/charging/handlers/ChargingSessionsHandler.java:84-131 | any sequence of starts with fresh ids and stops keeps a consistent store consistent |
| Runs.ReachableStoresAreConsistent | src/main/java/com/ajai/chargingsession/charging/handlers/ChargingSessionsHandler.java:93-124 | in every store reachable from the empty one, each session has a stop time iff it is finished, sits under its own (start time, id) key, and its id has no other cell |
| Runs.StepKeepsIdentities | src/main/java/com/ajai/chargingsession/charging/session/ChargingSession.java:25-33 | no call removes a cell, changes a stored session's id, station id or start time, or reopens a finished session |
| Runs.StepKeepsChronology | src/main/java/com/ajai/chargingsession/charging/handlers/ChargingSessionsHandler.java:121-124 | with a clock that has not gone backwards, one call keeps every start time at or before the clock and every stop time at or after its start |
| Runs.RunKeepsChronology | src/main/java/com/ajai/chargingsession/charging/handlers/ChargingSessionsHandler.java:84-131 | over a sequence of calls whose clock never goes backwards, no stop time precedes its start time |
| Runs.ReachableStopTimesFollowStarts | src/main/java/com/ajai/chargingsession/charging/handlers/ChargingSessionsHandler.java:121-124 | from the empty store with a monotone clock, every recorded stop time is at or after its session's start time |
| Runs.StartKeepsRestFresh | src/main/java/com/ajai/chargingsession/charging/handlers/ChargingSessionsHandler.java:96 | after one start, the remaining ids of a batch of distinct new ids are still new |
| Runs.StartAddsOneValue | src/main/java/com/ajai/chargingsession/charging/handlers/ChargingSessionsHandler.java:96 | a start under a new key adds exactly its own session to the stored sessions |
| Runs.StartAllAdds | src/main/java/com/ajai/chargingsession/charging/handlers/ChargingSessionsHandler.java:86-98 | a batch of starts with new, pairwise distinct ids adds one entry per call, holding exactly the sessions the calls describe, and keeps the earlier sessions |
| Runs.ListingOfOpenings | src/test/java/com/ajai/chargingsession/test/handlers/ChargingSessionsHandlerTest.java:50-61 | a listing made of a batch's new sessions shows only in-progress sessions without stop times, with exactly the requested station ids |
| Runs.StartsFromEmpty | src/test/java/com/ajai/chargingsession/test/handlers/ChargingSessionsHandlerTest.java:43-61 | a run of n start calls with distinct ids from the empty store lists n sessions, all in progress, none with a stop time, with station ids exactly the inputs |
| Runs.SummaryReportsWindow | src/test/java/com/ajai/chargingsession/test/integration/ChargingSessionsIntegrationTest.java:108-113 | the handler's counts fed to the summary give started = in-progress sessions in the window, stopped = finished ones, total = all sessions in the window |

## Left out

- Read/write locking: every operation is one atomic step, since the lock serves only concurrency. Parallel test scenarios become sequences of calls.
- `LocalDateTime.now()` and `UUID.randomUUID()` are not modelled; they are non-deterministic calls. They become the parameters `now` and `freshId`. The id's uniqueness is a freshness precondition on the lemmas (`!ContainsColumn`). `Start` itself overwrites a colliding key, like `Table.put`.
- `LocalDateTime` is an integer count of nanoseconds. Calendar arithmetic is not modelled, nor the `DateTimeException` that `minusSeconds` raises outside the supported date range.
- Handler.Stop: one clock reading serves every cell of the column. The code reads the clock once per cell, which differs only when an id spans several rows. No reachable store has such an id (`StopInConsistentStore`).
- Sessions.Build: requires the four not-blank builder fields to be set. The Java builder would build a session holding nulls, which no caller does.
- Sessions.With: states no contract of its own. `with` only applies the configuring function to the builder, and the lemmas `BuildLoadRoundTrip` and `UnsetStopTimeBuildsOpenSession` state its effect.
- Handler.Summarize: returns counts as unbounded naturals rather than `Long`. A count cannot exceed the number of stored sessions, far below 2^63. `Runs.SummaryReportsWindow` converts them under that bound.
- Java object aliasing is not modelled: sessions are values. In the code, `stop` mutates the session objects that earlier callers received. The model returns new values instead.
- Exception messages are not modelled: the failures carry the id, or the window and bounds, instead of the message text.
- Plumbing outside the core is not modelled:
  - the controller's routing and its default `seconds = 1`;
  - the mapping of exceptions to 404/400 responses;
  - `ApiError`;
  - the DTO and its `@NotBlank` validation;
  - `@Value` configuration;
  - application bootstrap;
  - URL and string constants;
  - JSON rendering, including omitting a null stop time;
  - getters and `toString`.
- The wall-clock scenario in the integration test is covered by the general window property of `Summarize`, not by a concrete lemma. That scenario sleeps two seconds and then summarizes over one second.
