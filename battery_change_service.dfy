/** `BatteryChangeService` (Application/Services): validate, build, store. */
module BatteryChangeIngestion {

  import opened Entities
  import opened Dtos
  import opened Validators
  import opened Storage
  import opened BatteryChanges

  class BatteryChangeService {
    const batteryChangeRepository: BatteryChangeRepository

    constructor (batteryChangeRepository: BatteryChangeRepository)
      ensures this.batteryChangeRepository == batteryChangeRepository
    {
      this.batteryChangeRepository := batteryChangeRepository;
    }

    /**
     * `IngestBatteryChangeAsync`, with `freshId` the result of
     * `Guid.NewGuid()`: the validator accepts every request, so each call
     * stores exactly one new record copying the device and the instant, and
     * leaves the existing records as they were.
     */
    method IngestBatteryChange(dto: CreateBatteryChangeDto, freshId: Guid) returns (accepted: bool)
      requires batteryChangeRepository.Valid()
      requires forall b :: b in batteryChangeRepository.records ==> b.id != freshId
      modifies batteryChangeRepository
      ensures batteryChangeRepository.Valid()
      ensures accepted
      ensures batteryChangeRepository.records ==
        old(batteryChangeRepository.records) + [BatteryChange(freshId, dto.deviceId, dto.createdAt)]
    {
      var validationResult := ValidateBatteryChange(dto);
      if !validationResult.IsValid() {
        return false;
      }
      var entity := BatteryChange(freshId, dto.deviceId, dto.createdAt);
      var outcome := batteryChangeRepository.AddBatteryChange(entity);
      assert outcome == Saved;
      return true;
    }
  }
}
