/** The ingestion validators (Application/Validators). */
module Validators {

  import opened Entities
  import opened Dtos

  const DeviceIdRequired: string := "DeviceId is required."

  const TimestampRequired: string := "Timestamp is required."

  /**
   * The check that the temperature and heartbeat validators both make, in
   * their order: the device id first, then the timestamp.
   */
  function RequireDeviceAndTimestamp(deviceId: DeviceKey, createdAt: Instant): (r: ValidationResult)
    ensures deviceId == EmptyGuid ==> r == Invalid(DeviceIdRequired)
    ensures deviceId != EmptyGuid && createdAt == DefaultInstant ==> r == Invalid(TimestampRequired)
    ensures r.IsValid() <==> deviceId != EmptyGuid && createdAt != DefaultInstant
  {
    if deviceId == EmptyGuid then Invalid(DeviceIdRequired)
    else if createdAt == DefaultInstant then Invalid(TimestampRequired)
    else Valid
  }

  /** `TemperatureReadingValidator.Validate`. */
  function ValidateTemperatureReading(dto: CreateTemperatureReadingDto): (r: ValidationResult)
    ensures dto.deviceId == EmptyGuid ==> r == Invalid(DeviceIdRequired)
    ensures dto.deviceId != EmptyGuid && dto.createdAt == DefaultInstant ==> r == Invalid(TimestampRequired)
    ensures r.IsValid() <==> dto.deviceId != EmptyGuid && dto.createdAt != DefaultInstant
    ensures r.IsValid() ==> r == Valid
  {
    RequireDeviceAndTimestamp(dto.deviceId, dto.createdAt)
  }

  /** The temperature and the signal strength never influence the verdict. */
  lemma TemperatureReadingVerdictIgnoresMeasurements(a: CreateTemperatureReadingDto, b: CreateTemperatureReadingDto)
    requires a.deviceId == b.deviceId && a.createdAt == b.createdAt
    ensures ValidateTemperatureReading(a) == ValidateTemperatureReading(b)
  {
  }

  /** `HeartbeatValidator.Validate`. */
  function ValidateHeartbeat(dto: CreateHeartbeatDto): (r: ValidationResult)
    ensures dto.deviceId == EmptyGuid ==> r == Invalid(DeviceIdRequired)
    ensures dto.deviceId != EmptyGuid && dto.createdAt == DefaultInstant ==> r == Invalid(TimestampRequired)
    ensures r.IsValid() <==> dto.deviceId != EmptyGuid && dto.createdAt != DefaultInstant
    ensures r.IsValid() ==> r == Valid
  {
    RequireDeviceAndTimestamp(dto.deviceId, dto.createdAt)
  }

  /** `BatteryChangeValidator.Validate`: no rule is defined, so everything is accepted. */
  function ValidateBatteryChange(dto: CreateBatteryChangeDto): (r: ValidationResult)
    ensures r.IsValid() && r.Error().None?
  {
    Valid
  }

  /** Even the empty device id and the default timestamp pass the battery-change validator. */
  lemma BatteryChangeAcceptsDefaults(dto: CreateBatteryChangeDto)
    requires dto.deviceId == EmptyGuid || dto.createdAt == DefaultInstant
    ensures ValidateBatteryChange(dto).IsValid()
  {
  }
}
