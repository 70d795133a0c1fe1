/**
 * The persisted entities of the weather station (Domain/Entities) and the
 * scalar types they are built from.
 */
module Entities {

  import opened Wrappers

  /**
   * Every identifier of the system. The source mixes `Guid` and `string` for
   * entity ids and device ids; the model uses one key type for both, written
   * in the textual form that the document store keeps.
   */
  type Key = string

  type Guid = Key

  type DeviceKey = Key

  /** `Guid.Empty`, the `default` value of a `Guid` device id. */
  const EmptyGuid: Guid := "00000000-0000-0000-0000-000000000000"

  /**
   * A point in time as a count of 100-nanosecond ticks since
   * 0001-01-01T00:00:00 UTC, the representation `DateTime` and
   * `DateTimeOffset` compare by.
   */
  type Instant = int

  /** `default(DateTime)`, that is `DateTime.MinValue`. */
  const DefaultInstant: Instant := 0

  const TicksPerMinute: int := 600_000_000

  const TicksPerHour: int := 60 * TicksPerMinute

  const TicksPerDay: int := 24 * TicksPerHour

  /** A C# `int`. */
  newtype Int32 = x: int | -0x8000_0000 <= x < 0x8000_0000

  /**
   * A C# `double`, kept as its IEEE 754 bit pattern: the core only copies
   * temperatures from one record to another and never computes on them.
   */
  datatype Temperature = Temperature(bits: bv64)

  /**
   * `TemperatureReading`, the only concrete kind of the abstract `Reading`:
   * an id, the device, the creation instant, an optional signal strength in
   * dBm, and the temperature.
   */
  datatype Reading = TemperatureReading(
    id: Guid,
    deviceId: DeviceKey,
    createdAt: Instant,
    signalStrength: Option<Int32>,
    temperature: Temperature)

  /** A heartbeat signal sent by a device. */
  datatype Heartbeat = Heartbeat(id: Guid, deviceId: DeviceKey, createdAt: Instant)

  /** A record of a battery change on a device. */
  datatype BatteryChange = BatteryChange(id: Guid, deviceId: DeviceKey, createdAt: Instant)

  datatype DeviceStatus = Online | Offline | Maintenance

  datatype Device = Device(id: DeviceKey, name: string, status: DeviceStatus)

  /** Per-day statistics of a device's temperatures; only carried, never computed here. */
  datatype DailyTemperatureStats = DailyTemperatureStats(
    date: Instant,
    average: Temperature,
    minimum: Temperature,
    maximum: Temperature)

  // Key and instant projections, passed by name to the generic queries so
  // that two uses of one projection are the same function value.

  function ReadingId(r: Reading): Guid { r.id }

  function ReadingDeviceId(r: Reading): DeviceKey { r.deviceId }

  function ReadingCreatedAt(r: Reading): Instant { r.createdAt }

  function HeartbeatId(h: Heartbeat): Guid { h.id }

  function HeartbeatDeviceId(h: Heartbeat): DeviceKey { h.deviceId }

  function HeartbeatCreatedAt(h: Heartbeat): Instant { h.createdAt }

  function BatteryChangeId(b: BatteryChange): Guid { b.id }

  function BatteryChangeDeviceId(b: BatteryChange): DeviceKey { b.deviceId }

  function DeviceId(d: Device): DeviceKey { d.id }
}
