/** `ChargingSessionSummary`: the started, stopped and total counts read off a
    status-to-count map. */
module Summary {
  import opened Results
  import opened Longs
  import opened Sessions

  datatype ChargingSessionSummary = ChargingSessionSummary(
    totalCount: Long,
    startedCount: Long,
    stoppedCount: Long)

  /** `Assert.notNull` raises an IllegalArgumentException for a null map. */
  datatype Failure = NullSummaryMap

  /** The constructor: a null map is rejected; otherwise started and stopped
      are the map's in-progress and finished counts (0 when absent) and the
      total is their `long` sum. */
  function FromMap(summaryMap: Option<map<Status, Long>>): (r: Result<ChargingSessionSummary, Failure>)
    ensures r.Failure? <==> summaryMap.None?
    ensures r.Success? ==> r.value.startedCount == GetOr(summaryMap.value, InProgress, 0)
    ensures r.Success? ==> r.value.stoppedCount == GetOr(summaryMap.value, Finished, 0)
    ensures r.Success? && -TwoTo63 <= r.value.startedCount as int + r.value.stoppedCount as int < TwoTo63 ==>
      r.value.totalCount as int == r.value.startedCount as int + r.value.stoppedCount as int
    ensures r.Success? ==>
      (r.value.startedCount as int + r.value.stoppedCount as int - r.value.totalCount as int) % TwoTo64 == 0
  {
    match summaryMap
    case None => Failure(NullSummaryMap)
    case Some(counts) =>
      var started := GetOr(counts, InProgress, 0);
      var stopped := GetOr(counts, Finished, 0);
      Success(ChargingSessionSummary(WrapAdd(started, stopped), started, stopped))
  }

  /** An empty map gives all-zero counts. */
  lemma EmptyMapGivesZeros()
    ensures FromMap(Some(map[])) == Success(ChargingSessionSummary(0, 0, 0))
  {
  }

  /** One in-progress and one finished session give total 2, started 1, stopped 1. */
  lemma OneOfEachGivesTwo()
    ensures FromMap(Some(map[InProgress := 1, Finished := 1])) == Success(ChargingSessionSummary(2, 1, 1))
  {
  }
}
