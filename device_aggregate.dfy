/** `DeviceAggregate` (Domain/Aggregates): a device with its append-only event lists. */
module Aggregates {

  import opened Entities

  class DeviceAggregate {
    var device: Device
    var readings: seq<Reading>
    var heartbeats: seq<Heartbeat>
    var batteryChanges: seq<BatteryChange>

    /** An aggregate starts with the device and three empty lists. */
    constructor (device: Device)
      ensures this.device == device
      ensures readings == [] && heartbeats == [] && batteryChanges == []
    {
      this.device := device;
      readings := [];
      heartbeats := [];
      batteryChanges := [];
    }

    /** Appends a reading; duplicates are kept, in insertion order. */
    method AddReading(reading: Reading)
      modifies this`readings
      ensures readings == old(readings) + [reading]
      ensures device == old(device) && heartbeats == old(heartbeats) && batteryChanges == old(batteryChanges)
    {
      readings := readings + [reading];
    }

    /** Appends a heartbeat and changes nothing else. */
    method AddHeartbeat(heartbeat: Heartbeat)
      modifies this`heartbeats
      ensures heartbeats == old(heartbeats) + [heartbeat]
      ensures device == old(device) && readings == old(readings) && batteryChanges == old(batteryChanges)
    {
      heartbeats := heartbeats + [heartbeat];
    }

    /** Appends a battery change and changes nothing else. */
    method AddBatteryChange(batteryChange: BatteryChange)
      modifies this`batteryChanges
      ensures batteryChanges == old(batteryChanges) + [batteryChange]
      ensures device == old(device) && readings == old(readings) && heartbeats == old(heartbeats)
    {
      batteryChanges := batteryChanges + [batteryChange];
    }
  }

  /** Adding one reading twice stores it twice, one after the other: the aggregate does not deduplicate. */
  method AddReadingTwice(aggregate: DeviceAggregate, reading: Reading)
    modifies aggregate`readings
    ensures aggregate.readings == old(aggregate.readings) + [reading, reading]
    ensures |aggregate.readings| == |old(aggregate.readings)| + 2
  {
    aggregate.AddReading(reading);
    aggregate.AddReading(reading);
  }
}
