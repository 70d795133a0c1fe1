/** `DeviceRepository` (Infrastructure/Repositories) over an in-memory container. */
module Devices {

  import opened Wrappers
  import opened Entities
  import opened Queries
  import opened Storage

  class DeviceRepository {
    var records: seq<Device>

    /** Devices are keyed by `Id`. */
    ghost predicate Valid()
      reads this
    {
      UniqueKeys(records, DeviceId)
    }

    constructor ()
      ensures Valid() && records == []
    {
      records := [];
    }

    /** `GetDeviceById`: the device with that id, or `None` (null) when there is none. */
    function GetDeviceById(id: DeviceKey): (r: Option<Device>)
      reads this
      ensures r.None? <==> forall d :: d in records ==> d.id != id
      ensures r.Some? ==> r.value in records && r.value.id == id
    {
      FindByKey(records, DeviceId, id)
    }

    /** Every stored device is found under its own id. */
    lemma GetByIdFindsStored(d: Device)
      requires Valid() && d in records
      ensures GetDeviceById(d.id) == Some(d)
    {
      FindUniqueKey(records, DeviceId, d);
    }

    /** `GetAllDevices`: every stored device, in store order. */
    function GetAllDevices(): (r: seq<Device>)
      reads this
      ensures forall d :: d in r <==> d in records
      ensures multiset(r) == multiset(records)
      ensures |r| == |records|
    {
      records
    }

    /** `AddDevice`: appends the device; a taken id makes the save fail and leaves the store as it was. */
    method AddDevice(device: Device) returns (outcome: SaveOutcome)
      requires Valid()
      modifies this
      ensures Valid()
      ensures outcome == Saved <==> forall d :: d in old(records) ==> d.id != device.id
      ensures outcome == Saved ==> records == old(records) + [device]
      ensures outcome == Saved ==> Keys(records, DeviceId) == old(Keys(records, DeviceId)) + {device.id}
      ensures outcome == Saved ==> GetDeviceById(device.id) == Some(device)
      ensures outcome == DuplicateKey ==> records == old(records)
    {
      if IndexOfKey(records, DeviceId, device.id).None? {
        AppendKeepsUnique(records, DeviceId, device);
        records := records + [device];
        FindUniqueKey(records, DeviceId, device);
        outcome := Saved;
      } else {
        outcome := DuplicateKey;
      }
    }

    /**
     * `UpdateDevice`: the stored device with the same id takes the given name
     * and status; an unknown id changes nothing.
     */
    method UpdateDevice(device: Device)
      requires Valid()
      modifies this
      ensures Valid()
      ensures Keys(records, DeviceId) == old(Keys(records, DeviceId))
      ensures match IndexOfKey(old(records), DeviceId, device.id)
        case None => records == old(records)
        case Some(i) => records == old(records)[i := old(records)[i].(name := device.name, status := device.status)]
      ensures GetDeviceById(device.id) ==
        match old(GetDeviceById(device.id))
        case None => None
        case Some(d) => Some(d.(name := device.name, status := device.status))
    {
      var found := IndexOfKey(records, DeviceId, device.id);
      if found.Some? {
        var i := found.value;
        var doc := records[i].(name := device.name, status := device.status);
        ReplaceKeepsUnique(records, DeviceId, i, doc);
        records := records[i := doc];
        assert records[i] == doc;
        FindUniqueKey(records, DeviceId, doc);
      }
    }

    /** `DeleteDevice`: removes the device with that id and nothing else; an unknown id changes nothing. */
    method DeleteDevice(id: DeviceKey)
      requires Valid()
      modifies this
      ensures Valid()
      ensures match IndexOfKey(old(records), DeviceId, id)
        case None => records == old(records)
        case Some(i) => records == old(records)[..i] + old(records)[i + 1..]
      ensures Keys(records, DeviceId) == old(Keys(records, DeviceId)) - {id}
      ensures forall d :: d in records <==> d in old(records) && d.id != id
      ensures GetDeviceById(id).None?
    {
      var found := IndexOfKey(records, DeviceId, id);
      if found.Some? {
        var i := found.value;
        RemoveKeepsOthers(records, DeviceId, i);
        records := records[..i] + records[i + 1..];
      }
    }
  }
}
