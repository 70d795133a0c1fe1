/** The request objects of the ingestion services and the validation verdict (Application/DTOs). */
module Dtos {

  import opened Wrappers
  import opened Entities

  datatype CreateTemperatureReadingDto = CreateTemperatureReadingDto(
    deviceId: DeviceKey,
    createdAt: Instant,
    temperature: Temperature,
    signalStrength: Int32)

  datatype CreateHeartbeatDto = CreateHeartbeatDto(deviceId: DeviceKey, createdAt: Instant)

  datatype CreateBatteryChangeDto = CreateBatteryChangeDto(deviceId: DeviceKey, createdAt: Instant)

  /**
   * The outcome of a validator. The class has a private constructor and two
   * factories, so a value is either the valid verdict or an invalid verdict
   * that carries its message; the two constructors here are those factories.
   * Being a datatype, a value never changes once built, as the get-only
   * properties promise.
   */
  datatype ValidationResult = Valid | Invalid(message: string)
  {
    /** The `IsValid` property. */
    predicate IsValid()
    {
      Valid?
    }

    /** The `Error` property; `None` stands for null. */
    function Error(): Option<string>
    {
      if Valid? then None else Some(message)
    }
  }

  /** `ValidationResult.Valid()` is valid and has no error. */
  lemma ValidHasNoError()
    ensures Valid.IsValid() && Valid.Error() == None
  {
  }

  /** `ValidationResult.Invalid(error)` is invalid and reports exactly `error`. */
  lemma InvalidCarriesError(error: string)
    ensures !Invalid(error).IsValid() && Invalid(error).Error() == Some(error)
  {
  }

  /**
   * Only the two factory shapes exist: a result is valid exactly when it has
   * no error, and it is one of the two factories' results.
   */
  lemma OnlyFactoryShapes(v: ValidationResult)
    ensures v.IsValid() <==> v.Error() == None
    ensures v == Valid || v == Invalid(v.Error().value)
  {
  }
}
