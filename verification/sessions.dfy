/** The charging-session entity, its status and its builder. */
module Sessions {
  import opened Results
  import opened Uuids

  /** A `LocalDateTime` as a count of nanoseconds on one fixed timeline; only its
      order and `minusSeconds` matter to the model. */
  type Time = int

  const NanosPerSecond: int := 1_000_000_000

  /** `StatusEnum`. */
  datatype Status = InProgress | Finished

  /** A charging session. `stoppedAt` is `None` where the Java field is null. */
  datatype ChargingSession = ChargingSession(
    id: Uuid,
    stationId: string,
    startedAt: Time,
    stoppedAt: Option<Time>,
    status: Status)

  /** The lifecycle invariant the store keeps for every session it holds: a stop
      time is recorded exactly when the session is finished. The entity itself
      does not enforce it. */
  predicate WellFormed(s: ChargingSession) {
    s.stoppedAt.Some? <==> s.status == Finished
  }

  /** `ChargingSessionBuilder`: every public field starts out null. */
  datatype Builder = Builder(
    id: Option<Uuid>,
    stationId: Option<string>,
    startedAt: Option<Time>,
    stoppedAt: Option<Time>,
    status: Option<Status>)

  /** `new ChargingSessionBuilder()`. */
  const NewBuilder: Builder := Builder(None, None, None, None, None)

  /** The fields a builder must have before `Build`: the ones the entity marks
      as not blank. */
  predicate Complete(b: Builder) {
    b.id.Some? && b.stationId.Some? && b.startedAt.Some? && b.status.Some?
  }

  /** `ChargingSessionBuilder.with`: hands the builder to the configuring
      function and carries on with what it produced. */
  function With(b: Builder, configure: Builder -> Builder): Builder {
    configure(b)
  }

  /** `ChargingSessionBuilder.build`. */
  function Build(b: Builder): (s: ChargingSession)
    requires Complete(b)
    ensures Some(s.id) == b.id && Some(s.stationId) == b.stationId
    ensures Some(s.startedAt) == b.startedAt && Some(s.status) == b.status
    ensures s.stoppedAt == b.stoppedAt
  {
    ChargingSession(b.id.value, b.stationId.value, b.startedAt.value, b.stoppedAt, b.status.value)
  }

  /** A builder configured with every field of `s`. */
  function Load(s: ChargingSession): Builder -> Builder {
    (b: Builder) => b.(id := Some(s.id), stationId := Some(s.stationId), startedAt := Some(s.startedAt),
            stoppedAt := s.stoppedAt, status := Some(s.status))
  }

  /** Building from a builder loaded with a session's fields gives back that session. */
  lemma BuildLoadRoundTrip(s: ChargingSession)
    ensures Complete(With(NewBuilder, Load(s)))
    ensures Build(With(NewBuilder, Load(s))) == s
  {
  }

  /** A configuring function that never touches `stoppedAt` yields a session
      with no stop time. */
  lemma UnsetStopTimeBuildsOpenSession(configure: Builder -> Builder)
    requires forall b :: configure(b).stoppedAt == b.stoppedAt
    requires Complete(With(NewBuilder, configure))
    ensures Build(With(NewBuilder, configure)).stoppedAt == None
  {
  }

  function SetStationId(s: ChargingSession, stationId: string): (r: ChargingSession)
    ensures r.stationId == stationId
    ensures r.id == s.id && r.startedAt == s.startedAt && r.stoppedAt == s.stoppedAt && r.status == s.status
  {
    s.(stationId := stationId)
  }

  function SetStoppedAt(s: ChargingSession, stoppedAt: Option<Time>): (r: ChargingSession)
    ensures r.stoppedAt == stoppedAt
    ensures r.id == s.id && r.stationId == s.stationId && r.startedAt == s.startedAt && r.status == s.status
  {
    s.(stoppedAt := stoppedAt)
  }

  function SetStatus(s: ChargingSession, status: Status): (r: ChargingSession)
    ensures r.status == status
    ensures r.id == s.id && r.stationId == s.stationId && r.startedAt == s.startedAt && r.stoppedAt == s.stoppedAt
  {
    s.(status := status)
  }

  /** The setters touch disjoint fields: applied in either order they agree, and
      setting a field to the value it already holds changes nothing. */
  lemma SettersCommute(s: ChargingSession, status: Status, stoppedAt: Option<Time>, stationId: string)
    ensures SetStoppedAt(SetStatus(s, status), stoppedAt) == SetStatus(SetStoppedAt(s, stoppedAt), status)
    ensures SetStationId(SetStatus(s, status), stationId) == SetStatus(SetStationId(s, stationId), status)
    ensures SetStatus(s, s.status) == s && SetStoppedAt(s, s.stoppedAt) == s
  {
  }

  /** The body of the handler's stop loop for one session: an in-progress
      session becomes finished at `now`; a finished one is left as it is. */
  function StopSession(s: ChargingSession, now: Time): (r: ChargingSession)
    ensures r.status == Finished
    ensures r.id == s.id && r.stationId == s.stationId && r.startedAt == s.startedAt
    ensures s.status == Finished ==> r == s
    ensures s.status == InProgress ==> r.stoppedAt == Some(now)
  {
    match s.status
    case InProgress => SetStoppedAt(SetStatus(s, Finished), Some(now))
    case Finished => s
  }

  /** Stopping is idempotent, whatever the clock says the second time, and it
      keeps the lifecycle invariant. */
  lemma StopSessionIdempotent(s: ChargingSession, first: Time, second: Time)
    ensures StopSession(StopSession(s, first), second) == StopSession(s, first)
    ensures WellFormed(s) ==> WellFormed(StopSession(s, first))
  {
  }
}
