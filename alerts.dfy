/** `AlertService.GenerateAlerts` (Domain/Services): the staleness rule, with the clock made a parameter. */
module Alerts {

  import opened Wrappers
  import opened Entities
  import opened Queries

  /** `TimeSpan.FromMinutes(30)`. */
  const StaleAfter: int := 30 * TicksPerMinute

  /** The alert text for a device whose latest reading is stale. */
  function StaleMessage(deviceId: DeviceKey): string
  {
    "Latest temperature reading is older than 30 minutes for device " + deviceId + "."
  }

  /**
   * `GenerateAlerts(readings)` at the instant `now`: picks the reading a stable
   * descending sort on `CreatedAt` puts first, and adds one alert naming its
   * device when `now` lies more than 30 minutes after it.
   */
  method GenerateAlerts(readings: seq<Reading>, now: Instant) returns (alerts: seq<string>)
    ensures |alerts| <= 1
    ensures readings == [] ==> alerts == []
    ensures alerts != [] <==> readings != [] && forall r :: r in readings ==> now - r.createdAt > StaleAfter
    ensures alerts != [] ==> exists r :: r in readings && alerts == [StaleMessage(r.deviceId)]
    ensures alerts != [] ==>
      var i := LatestIndex(readings, ReadingCreatedAt).value;
      IsFirstLatest(readings, ReadingCreatedAt, i) && alerts == [StaleMessage(readings[i].deviceId)]
  {
    alerts := [];
    var latestReading := Latest(readings, ReadingCreatedAt);
    if latestReading.Some? && now - latestReading.value.createdAt > StaleAfter {
      alerts := alerts + [StaleMessage(latestReading.value.deviceId)];
      // Every other reading is at least as old as the latest one.
      forall r | r in readings ensures now - r.createdAt > StaleAfter {
        assert ReadingCreatedAt(r) <= ReadingCreatedAt(latestReading.value);
      }
    } else if latestReading.Some? {
      assert latestReading.value in readings;
    }
  }

  /** A reading exactly 30 minutes old raises no alert: the bound is strict. */
  method ThirtyMinuteGapIsNotStale(r: Reading, now: Instant) returns (alerts: seq<string>)
    requires now == r.createdAt + 30 * TicksPerMinute
    ensures alerts == []
  {
    alerts := GenerateAlerts([r], now);
  }
}
