/** `TemperatureReadingService` (Application/Services): validate, build, store; and three query pass-throughs. */
module TemperatureReadingIngestion {

  import opened Wrappers
  import opened Entities
  import opened Dtos
  import opened Validators
  import opened Storage
  import opened TemperatureReadings

  /** The readings of the last 24 hours with the highest and the lowest of them, as the store reports them. */
  datatype ReadingWindow = ReadingWindow(readings: seq<Reading>, highest: Option<Reading>, lowest: Option<Reading>)

  class TemperatureReadingService {
    const readingRepository: TemperatureReadingRepository

    // The store queries the three query operations delegate to. No repository
    // defines them, so the service is handed them as given functions of the
    // readings the repository holds and the device id.
    const latestReadingQuery: (seq<Reading>, DeviceKey) -> Option<Reading>
    const last24hWithMinMaxQuery: (seq<Reading>, DeviceKey) -> ReadingWindow
    const dailyStatsLast30DaysQuery: (seq<Reading>, DeviceKey) -> seq<DailyTemperatureStats>

    constructor (
      readingRepository: TemperatureReadingRepository,
      latestReadingQuery: (seq<Reading>, DeviceKey) -> Option<Reading>,
      last24hWithMinMaxQuery: (seq<Reading>, DeviceKey) -> ReadingWindow,
      dailyStatsLast30DaysQuery: (seq<Reading>, DeviceKey) -> seq<DailyTemperatureStats>)
      ensures this.readingRepository == readingRepository
      ensures this.latestReadingQuery == latestReadingQuery
      ensures this.last24hWithMinMaxQuery == last24hWithMinMaxQuery
      ensures this.dailyStatsLast30DaysQuery == dailyStatsLast30DaysQuery
    {
      this.readingRepository := readingRepository;
      this.latestReadingQuery := latestReadingQuery;
      this.last24hWithMinMaxQuery := last24hWithMinMaxQuery;
      this.dailyStatsLast30DaysQuery := dailyStatsLast30DaysQuery;
    }

    /**
     * `IngestReadingAsync`, with `freshId` the result of `Guid.NewGuid()`: an
     * invalid request is refused and stores nothing; a valid one is stored as
     * one new reading that copies the request's fields under the fresh id.
     * There is no duplicate suppression.
     */
    method IngestReading(dto: CreateTemperatureReadingDto, freshId: Guid) returns (accepted: bool)
      requires readingRepository.Valid()
      requires forall x :: x in readingRepository.records ==> x.id != freshId
      modifies readingRepository
      ensures readingRepository.Valid()
      ensures accepted <==> ValidateTemperatureReading(dto).IsValid()
      ensures accepted <==> dto.deviceId != EmptyGuid && dto.createdAt != DefaultInstant
      ensures !accepted ==> readingRepository.records == old(readingRepository.records)
      ensures accepted ==>
        readingRepository.records == old(readingRepository.records) +
          [TemperatureReading(freshId, dto.deviceId, dto.createdAt, Some(dto.signalStrength), dto.temperature)]
      ensures accepted ==>
        readingRepository.GetTemperatureReadingById(freshId) ==
          Some(TemperatureReading(freshId, dto.deviceId, dto.createdAt, Some(dto.signalStrength), dto.temperature))
    {
      var validationResult := ValidateTemperatureReading(dto);
      if !validationResult.IsValid() {
        return false;
      }
      var entity := TemperatureReading(freshId, dto.deviceId, dto.createdAt, Some(dto.signalStrength), dto.temperature);
      var outcome := readingRepository.AddReading(entity);
      assert outcome == Saved;
      return true;
    }

    /**
     * `GetLatestReadingAsync`: the store's answer over the readings the
     * repository holds now, an absent reading passed on as absent.
     */
    function GetLatestReading(deviceId: DeviceKey): (r: Option<Reading>)
      reads readingRepository
      ensures r == latestReadingQuery(readingRepository.records, deviceId)
      ensures r.None? <==> latestReadingQuery(readingRepository.records, deviceId).None?
    {
      var entity := latestReadingQuery(readingRepository.records, deviceId);
      if entity.None? then None else entity
    }

    /** `GetReadingsLast24hAsync`: the store's readings, highest and lowest over the repository's readings, unchanged. */
    function GetReadingsLast24h(deviceId: DeviceKey): (r: ReadingWindow)
      reads readingRepository
      ensures r == last24hWithMinMaxQuery(readingRepository.records, deviceId)
    {
      var window := last24hWithMinMaxQuery(readingRepository.records, deviceId);
      ReadingWindow(window.readings, window.highest, window.lowest)
    }

    /** `GetDailyStatsLast30DaysAsync`: the store's daily statistics over the repository's readings, unchanged. */
    function GetDailyStatsLast30Days(deviceId: DeviceKey): (r: seq<DailyTemperatureStats>)
      reads readingRepository
      ensures r == dailyStatsLast30DaysQuery(readingRepository.records, deviceId)
    {
      dailyStatsLast30DaysQuery(readingRepository.records, deviceId)
    }
  }

  /** Ingesting one valid request twice stores two readings, one per fresh id: nothing is suppressed. */
  method IngestTwice(service: TemperatureReadingService, dto: CreateTemperatureReadingDto, id1: Guid, id2: Guid)
      returns (first: bool, second: bool)
    requires service.readingRepository.Valid()
    requires ValidateTemperatureReading(dto).IsValid()
    requires id1 != id2
    requires forall x :: x in service.readingRepository.records ==> x.id != id1 && x.id != id2
    modifies service.readingRepository
    ensures first && second
    ensures service.readingRepository.records == old(service.readingRepository.records) + [
      TemperatureReading(id1, dto.deviceId, dto.createdAt, Some(dto.signalStrength), dto.temperature),
      TemperatureReading(id2, dto.deviceId, dto.createdAt, Some(dto.signalStrength), dto.temperature)]
  {
    first := service.IngestReading(dto, id1);
    second := service.IngestReading(dto, id2);
  }
}
