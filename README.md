# Beach weather station: a verified model of the ingestion core

This project models the logic of the beach weather station server that sits
between the HTTP triggers and the document store:

- the request validators and their `ValidationResult`;
- the domain duplicate check and the staleness alert rule;
- the year-month partition key generator;
- the device aggregate;
- the four Entity Framework repositories, each over an in-memory container;
- the temperature-reading and battery-change ingestion services.

The system's description also promises one-minute duplicate suppression, a
24-hour window with minimum and maximum, 30-day daily statistics and a
tag-invalidated cache. The code implements none of these: ingestion stores
every valid reading. The service's query methods call repository methods no
repository defines. The two ingest calls (`AddReadingAsync`,
`AddBatteryChangeAsync`) also name methods that no implementation provides.
The model follows the code and binds ingestion to the synchronous `Add` methods.

Conventions used throughout:

- Every identifier, `Guid` or `string`, is one key type (`Entities.Key`).
  `Guid.Empty` is the "default" device id that the validators reject.
- Instants are integer UTC ticks (100 ns) since 0001-01-01. `default(DateTime)` is 0.
- Temperatures are opaque IEEE 754 bit patterns. They are only ever copied.
- Each repository is a class whose `records: seq<...>` field is the container.
  Its `Valid()` says that ids are unique, as the `HasKey(e => e.Id)`
  configurations declare.
- Adding a record whose id is already taken fails with `DuplicateKey` and
  changes nothing, where the store would raise an error.
- `Guid.NewGuid()` is a fresh-id parameter of the services. The clock
  (`DateTime.UtcNow`) is a `now` parameter.

## Model

| member | source | states |
|---|---|---|
| `Dtos.ValidHasNoError` | server/src/BeachWeatherStation.Application/DTOs/ValidationResult.cs:14 | `Valid()` is valid and its error is null |
| `Dtos.InvalidCarriesError` | server/src/BeachWeatherStation.Application/DTOs/ValidationResult.cs:15 | `Invalid(e)` is invalid and its error is exactly `e` |
| `Dtos.OnlyFactoryShapes` | server/src/BeachWeatherStation.Application/DTOs/ValidationResult.cs:5-15 | with the constructor private, every result is one of the two factory shapes, and it is valid exactly when it has no error |
| `Validators.RequireDeviceAndTimestamp` | server/src/BeachWeatherStation.Application/Validators/TemperatureReadingValidator.cs:9-14 | the shared check: the empty device id gives "DeviceId is required." (it wins when both fields are default); otherwise a default instant gives "Timestamp is required."; the result is valid iff both fields are set |
| `Validators.ValidateTemperatureReading` | server/src/BeachWeatherStation.Application/Validators/TemperatureReadingValidator.cs:7-15 | the two errors in their order, and valid iff device id and instant are both non-default |
| `Validators.TemperatureReadingVerdictIgnoresMeasurements` | server/src/BeachWeatherStation.Application/Validators/TemperatureReadingValidator.cs:7-15 | temperature and signal strength never change the verdict |
| `Validators.ValidateHeartbeat` | server/src/BeachWeatherStation.Application/Validators/HeartbeatValidator.cs:7-14 | the two errors in their order, and valid iff device id and instant are both non-default |
| `Validators.ValidateBatteryChange` | server/src/BeachWeatherStation.Application/Validators/BatteryChangeValidator.cs:7-11 | every request is valid and the error is null |
| `Validators.BatteryChangeAcceptsDefaults` | server/src/BeachWeatherStation.Application/Validators/BatteryChangeValidator.cs:7-11 | the empty device id and the default instant are accepted |
| `ReadingValidation.ValidateReading` | server/src/BeachWeatherStation.Domain/Services/ReadingValidationService.cs:18-29 | the scan answers false iff some existing reading has the same device and the same creation instant |
| `ReadingValidation.EmptyHistoryAccepts` | server/src/BeachWeatherStation.Domain/Services/ReadingValidationService.cs:20-28 | no existing readings means no duplicate |
| `ReadingValidation.VerdictIgnoresOtherFields` | server/src/BeachWeatherStation.Domain/Services/ReadingValidationService.cs:23 | id, signal strength and temperature are never compared |
| `ReadingValidation.OtherDevicesNeverConflict` | server/src/BeachWeatherStation.Domain/Services/ReadingValidationService.cs:23 | the same instant on other devices is no duplicate |
| `ReadingValidation.VerdictIgnoresOrder` | server/src/BeachWeatherStation.Domain/Services/ReadingValidationService.cs:20-28 | the verdict depends only on the multiset of existing readings, not on their order |
| `ReadingValidation.MoreHistoryOnlyRejects` | server/src/BeachWeatherStation.Domain/Services/ReadingValidationService.cs:20-28 | more existing readings can turn an acceptance into a rejection, never the reverse |
| `Queries.IndexOfKey` | server/src/BeachWeatherStation.Infrastructure/Repositories/TemperatureReadingRepository.cs:56 | the position `FirstOrDefault(x => x.Id == id)` finds: none iff no element has the key, otherwise the first element that has it |
| `Queries.FindByKey` | server/src/BeachWeatherStation.Infrastructure/Repositories/TemperatureReadingRepository.cs:28 | `FirstOrDefault(x => x.Id == id)`: null iff no element has the key, otherwise an element of the input that has it |
| `Queries.Where` | server/src/BeachWeatherStation.Infrastructure/Repositories/HeartbeatRepository.cs:33 | `Where(p)`: exactly the elements satisfying `p`, each as often as in the input, the others not at all |
| `Queries.WhereKey` | server/src/BeachWeatherStation.Infrastructure/Repositories/HeartbeatRepository.cs:60 | `Where(x => x.DeviceId == k)`: exactly the elements with key `k`, each as often as in the input |
| `Queries.Any` | server/src/BeachWeatherStation.Infrastructure/Repositories/HeartbeatRepository.cs:76 | `Any(p)`: true iff some element satisfies `p` |
| `Queries.LatestIndex` | server/src/BeachWeatherStation.Domain/Services/AlertService.cs:23 | `OrderByDescending(CreatedAt).FirstOrDefault()`: none iff the input is empty, else a position with the greatest instant before which every instant is strictly smaller |
| `Queries.LatestIndexUnique` | server/src/BeachWeatherStation.Domain/Services/AlertService.cs:23 | that position is the only one with the first-latest property, so the stable sort's choice is determined |
| `Queries.Latest` | server/src/BeachWeatherStation.Domain/Services/AlertService.cs:23 | the element `OrderByDescending(at).FirstOrDefault()` returns: none iff the input is empty, else an element of the input whose instant is at least every other's |
| `Alerts.GenerateAlerts` | server/src/BeachWeatherStation.Domain/Services/AlertService.cs:18-32 | at most one alert, none for no readings; an alert iff every reading (so the latest) is more than 30 minutes before `now`; the alert names the device of the first-latest reading |
| `Alerts.ThirtyMinuteGapIsNotStale` | server/src/BeachWeatherStation.Domain/Services/AlertService.cs:26 | a reading exactly 30 minutes old raises no alert |
| `YearMonth.FormatYearMonth` | server/src/BeachWeatherStation.Infrastructure/Data/YearMonthValueGenerator.cs:24 | "yyyy-MM": seven characters, '-' at index 4, digits elsewhere |
| `YearMonth.ParseFormatRoundTrip` | server/src/BeachWeatherStation.Infrastructure/Data/YearMonthValueGenerator.cs:24 | characters 0-3 are the zero-padded year and 5-6 the zero-padded month: reading the key back gives the year and month |
| `YearMonth.FormatYearMonthInjective` | server/src/BeachWeatherStation.Infrastructure/Data/YearMonthValueGenerator.cs:24 | different (year, month) pairs give different keys |
| `YearMonth.GeneratesTemporaryValues` | server/src/BeachWeatherStation.Infrastructure/Data/YearMonthValueGenerator.cs:9 | the generated values are not temporary |
| `YearMonth.Next` | server/src/BeachWeatherStation.Infrastructure/Data/YearMonthValueGenerator.cs:11-25 | a seven-character key with '-' at index 4 that reads back as the year and month of `CreatedAt` when it is a `DateTime`, and of the clock otherwise |
| `YearMonth.SameMonthSameKey` | server/src/BeachWeatherStation.Infrastructure/Data/YearMonthValueGenerator.cs:16-24 | two `DateTime`s of one calendar month give one key |
| `YearMonth.DifferentMonthsDifferentKeys` | server/src/BeachWeatherStation.Infrastructure/Data/YearMonthValueGenerator.cs:16-24 | `DateTime`s of different months give different keys |
| `YearMonth.NonDateTimeUsesClock` | server/src/BeachWeatherStation.Infrastructure/Data/YearMonthValueGenerator.cs:14-23 | a missing or non-`DateTime` `CreatedAt` (a `DateTimeOffset`, as readings and battery changes have) yields the clock's year and month |
| `Aggregates.DeviceAggregate.constructor` | server/src/BeachWeatherStation.Domain/Aggregates/DeviceAggregate.cs:8-11 | a new aggregate holds its device and three empty lists |
| `Aggregates.DeviceAggregate.AddReading` | server/src/BeachWeatherStation.Domain/Aggregates/DeviceAggregate.cs:13-16 | appends to `Readings`; device, heartbeats and battery changes unchanged |
| `Aggregates.DeviceAggregate.AddHeartbeat` | server/src/BeachWeatherStation.Domain/Aggregates/DeviceAggregate.cs:18-21 | appends to `Heartbeats` only |
| `Aggregates.DeviceAggregate.AddBatteryChange` | server/src/BeachWeatherStation.Domain/Aggregates/DeviceAggregate.cs:23-26 | appends to `BatteryChanges` only |
| `Aggregates.AddReadingTwice` | server/src/BeachWeatherStation.Domain/Aggregates/DeviceAggregate.cs:13-16 | adding one reading twice keeps both copies, in order |
| `TemperatureReadingIngestion.TemperatureReadingService.IngestReading` | server/src/BeachWeatherStation.Application/Services/TemperatureReadingService.cs:24-40 | invalid request: false and the store unchanged; valid request: true and exactly one new reading that copies device, instant, temperature and signal strength under the fresh id; ids stay unique |
| `TemperatureReadingIngestion.IngestTwice` | server/src/BeachWeatherStation.Application/Services/TemperatureReadingService.cs:24-40 | one valid request ingested twice is stored twice: no duplicate suppression |
| `TemperatureReadingIngestion.TemperatureReadingService.GetLatestReading` | server/src/BeachWeatherStation.Application/Services/TemperatureReadingService.cs:42-47 | exactly the store's latest-reading answer over the readings the repository holds now, absent passed on as absent, so an ingested reading is visible to it |
| `TemperatureReadingIngestion.TemperatureReadingService.GetReadingsLast24h` | server/src/BeachWeatherStation.Application/Services/TemperatureReadingService.cs:49-53 | the store's readings, highest and lowest over the repository's current readings, unchanged |
| `TemperatureReadingIngestion.TemperatureReadingService.GetDailyStatsLast30Days` | server/src/BeachWeatherStation.Application/Services/TemperatureReadingService.cs:55-59 | the store's daily statistics over the repository's current readings, unchanged |
| `BatteryChangeIngestion.BatteryChangeService.IngestBatteryChange` | server/src/BeachWeatherStation.Application/Services/BatteryChangeService.cs:19-33 | always true; exactly one new record copying device and instant under the fresh id; existing records unchanged |
| `Storage.UniqueKeysOccurOnce` | server/src/BeachWeatherStation.Infrastructure/Data/Configurations/TemperatureReadingConfiguration.cs:16 | records keyed by a unique `Id` are distinct: each occurs at most once in the container |
| `TemperatureReadings.TemperatureReadingRepository.GetTemperatureReadingById` | server/src/BeachWeatherStation.Infrastructure/Repositories/TemperatureReadingRepository.cs:26-31 | a stored reading with that id, or none exactly when no reading has it |
| `TemperatureReadings.TemperatureReadingRepository.GetByIdFindsStored` | server/src/BeachWeatherStation.Infrastructure/Repositories/TemperatureReadingRepository.cs:26-31 | with unique ids, every stored reading is what its id looks up |
| `TemperatureReadings.TemperatureReadingRepository.GetReadingsByDeviceId` | server/src/BeachWeatherStation.Infrastructure/Repositories/TemperatureReadingRepository.cs:36-40 | as written: exactly the readings whose `Id` (not `DeviceId`) equals the argument, each as often as stored |
| `TemperatureReadings.TemperatureReadingRepository.ReadingsByDeviceIdAtMostOne` | server/src/BeachWeatherStation.Infrastructure/Repositories/TemperatureReadingRepository.cs:36-40 | because ids are unique, that query returns at most one reading |
| `TemperatureReadings.TemperatureReadingRepository.AddReading` | server/src/BeachWeatherStation.Infrastructure/Repositories/TemperatureReadingRepository.cs:45-49 | a new id is appended and then found by id, and existing readings are kept; a taken id fails and changes nothing; a save adds exactly the new id to the set of ids in use |
| `TemperatureReadings.TemperatureReadingRepository.UpdateReading` | server/src/BeachWeatherStation.Infrastructure/Repositories/TemperatureReadingRepository.cs:54-65 | the matching reading takes device, instant and temperature and keeps id and signal strength; an unknown id changes nothing; the set of ids in use is unchanged |
| `TemperatureReadings.TemperatureReadingRepository.DeleteReading` | server/src/BeachWeatherStation.Infrastructure/Repositories/TemperatureReadingRepository.cs:67-75 | exactly the reading with that id is removed, the rest kept in order; an unknown id changes nothing; the id leaves the set of ids in use |
| `TemperatureReadings.ReadingsWithId` | server/src/BeachWeatherStation.Infrastructure/Repositories/TemperatureReadingRepository.cs:38 | the as-written filter keeps exactly the readings whose id equals the argument, each as often as stored |
| `TemperatureReadings.ReadingsOfDevice` | server/src/BeachWeatherStation.Infrastructure/Repositories/TemperatureReadingRepository.cs:33-40 | the intended filter keeps exactly the readings of the device, each as often as stored |
| `TemperatureReadings.FiltersListReadingsOnce` | server/src/BeachWeatherStation.Infrastructure/Repositories/TemperatureReadingRepository.cs:36-40 | over readings with unique ids, both filters list each reading at most once |
| `TemperatureReadings.ReadingsByDeviceIdMissesDeviceReadings` | server/src/BeachWeatherStation.Infrastructure/Repositories/TemperatureReadingRepository.cs:36-40 | a store with one reading of "device-1" answers the as-written query for "device-1" with nothing |
| `Heartbeats.HeartbeatRepository.GetLatestHeartbeat` | server/src/BeachWeatherStation.Infrastructure/Repositories/HeartbeatRepository.cs:18-24 | none iff the device has no heartbeat; otherwise one of the device's heartbeats whose instant is at least every other of its heartbeats' |
| `Heartbeats.HeartbeatRepository.GetHeartbeatsLast24h` | server/src/BeachWeatherStation.Infrastructure/Repositories/HeartbeatRepository.cs:29-35 | exactly the device's heartbeats created at or after `now` minus 24 hours (inclusive bound), each as often as stored |
| `Heartbeats.HeartbeatRepository.GetHeartbeatById` | server/src/BeachWeatherStation.Infrastructure/Repositories/HeartbeatRepository.cs:49-53 | a stored heartbeat with that id, or none exactly when no heartbeat has it |
| `Heartbeats.HeartbeatRepository.GetByIdFindsStored` | server/src/BeachWeatherStation.Infrastructure/Repositories/HeartbeatRepository.cs:49-53 | every stored heartbeat is what its id looks up |
| `Heartbeats.HeartbeatRepository.GetHeartbeatsByDeviceId` | server/src/BeachWeatherStation.Infrastructure/Repositories/HeartbeatRepository.cs:58-62 | exactly the heartbeats of that device, each as often as stored |
| `Heartbeats.HeartbeatRepository.DeviceHeartbeatsOccurOnce` | server/src/BeachWeatherStation.Infrastructure/Repositories/HeartbeatRepository.cs:29-62 | with unique ids, the by-device and last-24-hours queries list each heartbeat at most once |
| `Heartbeats.HeartbeatRepository.GetAllHeartbeats` | server/src/BeachWeatherStation.Infrastructure/Repositories/HeartbeatRepository.cs:66-69 | every stored heartbeat, with the same multiplicities and count |
| `Heartbeats.HeartbeatRepository.HeartbeatExists` | server/src/BeachWeatherStation.Infrastructure/Repositories/HeartbeatRepository.cs:74-77 | the `Any` scan is true iff the by-id lookup finds a heartbeat |
| `Heartbeats.HeartbeatRepository.AddHeartbeat` | server/src/BeachWeatherStation.Infrastructure/Repositories/HeartbeatRepository.cs:82-86 | a new id is appended, found by id and listed by `GetAllHeartbeats`; a taken id fails and changes nothing; a save adds exactly the new id to the set of ids in use |
| `Heartbeats.HeartbeatRepository.UpdateHeartbeat` | server/src/BeachWeatherStation.Infrastructure/Repositories/HeartbeatRepository.cs:91-101 | the matching heartbeat takes device and instant only; an unknown id changes nothing; the set of ids in use is unchanged |
| `Heartbeats.HeartbeatRepository.DeleteHeartbeat` | server/src/BeachWeatherStation.Infrastructure/Repositories/HeartbeatRepository.cs:103-111 | exactly the heartbeat with that id is removed and no longer exists; an unknown id changes nothing; the id leaves the set of ids in use |
| `Devices.DeviceRepository.GetDeviceById` | server/src/BeachWeatherStation.Infrastructure/Repositories/DeviceRepository.cs:26-31 | a stored device with that id, or none exactly when no device has it |
| `Devices.DeviceRepository.GetByIdFindsStored` | server/src/BeachWeatherStation.Infrastructure/Repositories/DeviceRepository.cs:26-31 | every stored device is what its id looks up |
| `Devices.DeviceRepository.GetAllDevices` | server/src/BeachWeatherStation.Infrastructure/Repositories/DeviceRepository.cs:36-41 | every stored device, with the same multiplicities and count |
| `Devices.DeviceRepository.AddDevice` | server/src/BeachWeatherStation.Infrastructure/Repositories/DeviceRepository.cs:46-50 | a new id is appended and found by id, others kept; a taken id fails and changes nothing; a save adds exactly the new id to the set of ids in use |
| `Devices.DeviceRepository.UpdateDevice` | server/src/BeachWeatherStation.Infrastructure/Repositories/DeviceRepository.cs:55-65 | the matching device takes name and status and keeps its id; an unknown id changes nothing; the set of ids in use is unchanged |
| `Devices.DeviceRepository.DeleteDevice` | server/src/BeachWeatherStation.Infrastructure/Repositories/DeviceRepository.cs:67-75 | exactly the device with that id is removed; an unknown id changes nothing; the id leaves the set of ids in use |
| `BatteryChanges.BatteryChangeRepository.GetBatteryChangeById` | server/src/BeachWeatherStation.Infrastructure/Repositories/BatteryChangeRepository.cs:26-31 | a stored record with that id, or none exactly when no record has it |
| `BatteryChanges.BatteryChangeRepository.GetByIdFindsStored` | server/src/BeachWeatherStation.Infrastructure/Repositories/BatteryChangeRepository.cs:26-31 | every stored record is what its id looks up |
| `BatteryChanges.BatteryChangeRepository.GetBatteryChangesByDeviceId` | server/src/BeachWeatherStation.Infrastructure/Repositories/BatteryChangeRepository.cs:36-42 | exactly the records of that device, each as often as stored |
| `BatteryChanges.BatteryChangeRepository.DeviceBatteryChangesOccurOnce` | server/src/BeachWeatherStation.Infrastructure/Repositories/BatteryChangeRepository.cs:36-42 | with unique ids, the by-device query lists each record at most once |
| `BatteryChanges.BatteryChangeRepository.AddBatteryChange` | server/src/BeachWeatherStation.Infrastructure/Repositories/BatteryChangeRepository.cs:47-51 | a new id is appended and found by id, others kept; a taken id fails and changes nothing; a save adds exactly the new id to the set of ids in use |
| `BatteryChanges.BatteryChangeRepository.UpdateBatteryChange` | server/src/BeachWeatherStation.Infrastructure/Repositories/BatteryChangeRepository.cs:56-66 | the matching record takes device and instant only; an unknown id changes nothing; the set of ids in use is unchanged |
| `BatteryChanges.BatteryChangeRepository.DeleteBatteryChange` | server/src/BeachWeatherStation.Infrastructure/Repositories/BatteryChangeRepository.cs:68-76 | exactly the record with that id is removed; an unknown id changes nothing; the id leaves the set of ids in use |

## Left out

- HTTP triggers (`Worker/*Function.cs`): request parsing, JSON and status codes. They are outside the core.
- `HeartbeatService`: its whole body is commented out, so there is nothing to model.
- The Cosmos DB export console tool: it is file I/O.
- Dependency injection, hosting, environment configuration, the registered but unused hybrid cache, the `DbContext` and the entity configurations (containers, partition keys, the 7-day time to live):
  - these are wiring, not logic;
  - the one fact taken from the configurations is that each entity is keyed by `Id`.
- The repository interfaces: their signatures (sync or async, `Guid` or `string`) do not match the implementations.
  The model gives each implementation's behaviour over one key type.
- Several id comparisons mix `Guid` and `string` and would not compile as written, for example `x.DeviceId == deviceId` at HeartbeatRepository.cs:21 and `x.Id == deviceId` at DeviceRepository.cs:28.
  The single key type is what absorbs them.
- The services' store calls name methods the repositories do not provide:
  - `IngestReadingAsync` calls `AddReadingAsync` (TemperatureReadingService.cs:38), which the temperature-reading repository interface does not declare; it has only the synchronous `AddReading`.
  - `IngestBatteryChangeAsync` calls `AddBatteryChangeAsync` (BatteryChangeService.cs:31), which `BatteryChangeRepository` does not implement.
  The model binds both services to the synchronous repository `Add` methods.
- Events, response DTOs, and the logging-only infrastructure alert service: they carry no logic.
- The 24-hour min/max and 30-day statistics queries: no repository implements these repository methods.
  The service's pass-throughs are modelled over given query functions.
  The one-minute duplicate suppression and the cache are not implemented anywhere, so they are not modelled.
- `async`/`await` and concurrency: every operation is one sequential step.
- Storage I/O failures: only the duplicate-key failure of an add is modelled.
- `AsNoTracking` copies and change tracking: records are values.
  For the same reason, the aggregate's lists are not shared references that others could alias.
- DateTime kinds and offsets:
  - the model does not convert a `DateTime` of unspecified or local kind to a `DateTimeOffset`;
  - it does not derive calendar fields from ticks;
  - every instant is taken as UTC.
  The alert rule subtracts an offset instant from `DateTime.UtcNow`; the model takes both as UTC ticks.
- Culture-dependent calendars in `ToString("yyyy-MM")`: the model assumes the Gregorian (invariant) calendar.
- The DTOs' `CreatedAt = DateTime.UtcNow` initialisers: they are a clock read at construction, so a DTO here simply carries its instant.
- `double` temperatures: they are kept opaque, because they are only copied.
- `int` wrap-around: no value is computed on, so none can wrap.
- Null arguments (a null DTO, a null reading sequence), and `Invalid(null)` through nullable misuse: these are not modelled.
  The `null!` returned by the synchronous by-id lookups is modelled as `None`.
- `YearMonth.Next`: when the entity has no `CreatedAt` property, Entity Framework's `entry.Property(...)` raises an error rather than returning null. The model follows the code's own null check and falls back to the clock.
- `Heartbeats.HeartbeatRepository.GetLatestHeartbeat`: states that the result is a latest heartbeat of the device, not which one among heartbeats with equal instants. The store's `ORDER BY` does not fix the order of ties. The model's choice, the first in store order, is the one LINQ to Objects makes.

## Findings

| source | as written | input that shows it | evidently intended | confidence | as-written member | corrected member |
|---|---|---|---|---|---|---|
| server/src/BeachWeatherStation.Infrastructure/Repositories/TemperatureReadingRepository.cs:36-40 | `GetReadingsByDeviceId(deviceId)` filters `x.Id == deviceId`, comparing the reading's own id | a store holding the single reading with id "reading-1" of device "device-1", queried for "device-1", returns no reading | the readings whose `DeviceId` equals the argument, as the name and the documentation say and as the battery-change repository does | high; not executed | `TemperatureReadings.ReadingsByDeviceIdMissesDeviceReadings` | `TemperatureReadings.ReadingsOfDevice` |

The repository class keeps the as-written filter, because the model follows the code.
Nothing else in the model calls it.
