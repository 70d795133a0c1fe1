/** `BatteryChangeRepository` (Infrastructure/Repositories) over an in-memory container. */
module BatteryChanges {

  import opened Wrappers
  import opened Entities
  import opened Queries
  import opened Storage

  class BatteryChangeRepository {
    var records: seq<BatteryChange>

    /** Battery changes are keyed by `Id`. */
    ghost predicate Valid()
      reads this
    {
      UniqueKeys(records, BatteryChangeId)
    }

    constructor ()
      ensures Valid() && records == []
    {
      records := [];
    }

    /** `GetBatteryChangeById`: the battery change with that id, or `None` (null) when there is none. */
    function GetBatteryChangeById(id: Guid): (r: Option<BatteryChange>)
      reads this
      ensures r.None? <==> forall b :: b in records ==> b.id != id
      ensures r.Some? ==> r.value in records && r.value.id == id
    {
      FindByKey(records, BatteryChangeId, id)
    }

    /** Every stored battery change is found under its own id. */
    lemma GetByIdFindsStored(b: BatteryChange)
      requires Valid() && b in records
      ensures GetBatteryChangeById(b.id) == Some(b)
    {
      FindUniqueKey(records, BatteryChangeId, b);
    }

    /** `GetBatteryChangesByDeviceId`: exactly the battery changes of that device. */
    function GetBatteryChangesByDeviceId(deviceId: DeviceKey): (r: seq<BatteryChange>)
      reads this
      ensures forall b :: b in r <==> b in records && b.deviceId == deviceId
      ensures forall b :: multiset(r)[b] == if b.deviceId == deviceId then multiset(records)[b] else 0
    {
      WhereKey(records, BatteryChangeDeviceId, deviceId)
    }

    /** Battery changes are keyed by `Id`, so the device query lists each record at most once. */
    lemma DeviceBatteryChangesOccurOnce(deviceId: DeviceKey)
      requires Valid()
      ensures forall b :: multiset(GetBatteryChangesByDeviceId(deviceId))[b] <= 1
    {
      UniqueKeysOccurOnce(records, BatteryChangeId);
    }

    /** `AddBatteryChange`: appends the record; a taken id makes the save fail and leaves the store as it was. */
    method AddBatteryChange(batteryChange: BatteryChange) returns (outcome: SaveOutcome)
      requires Valid()
      modifies this
      ensures Valid()
      ensures outcome == Saved <==> forall b :: b in old(records) ==> b.id != batteryChange.id
      ensures outcome == Saved ==> records == old(records) + [batteryChange]
      ensures outcome == Saved ==> Keys(records, BatteryChangeId) == old(Keys(records, BatteryChangeId)) + {batteryChange.id}
      ensures outcome == Saved ==> GetBatteryChangeById(batteryChange.id) == Some(batteryChange)
      ensures outcome == DuplicateKey ==> records == old(records)
    {
      if IndexOfKey(records, BatteryChangeId, batteryChange.id).None? {
        AppendKeepsUnique(records, BatteryChangeId, batteryChange);
        records := records + [batteryChange];
        FindUniqueKey(records, BatteryChangeId, batteryChange);
        outcome := Saved;
      } else {
        outcome := DuplicateKey;
      }
    }

    /**
     * `UpdateBatteryChange`: the stored record with the same id takes the
     * given device and instant; an unknown id changes nothing.
     */
    method UpdateBatteryChange(batteryChange: BatteryChange)
      requires Valid()
      modifies this
      ensures Valid()
      ensures Keys(records, BatteryChangeId) == old(Keys(records, BatteryChangeId))
      ensures match IndexOfKey(old(records), BatteryChangeId, batteryChange.id)
        case None => records == old(records)
        case Some(i) => records == old(records)[i := old(records)[i].(
            deviceId := batteryChange.deviceId, createdAt := batteryChange.createdAt)]
      ensures GetBatteryChangeById(batteryChange.id) ==
        match old(GetBatteryChangeById(batteryChange.id))
        case None => None
        case Some(b) => Some(b.(deviceId := batteryChange.deviceId, createdAt := batteryChange.createdAt))
    {
      var found := IndexOfKey(records, BatteryChangeId, batteryChange.id);
      if found.Some? {
        var i := found.value;
        var doc := records[i].(deviceId := batteryChange.deviceId, createdAt := batteryChange.createdAt);
        ReplaceKeepsUnique(records, BatteryChangeId, i, doc);
        records := records[i := doc];
        assert records[i] == doc;
        FindUniqueKey(records, BatteryChangeId, doc);
      }
    }

    /** `DeleteBatteryChange`: removes the record with that id and nothing else; an unknown id changes nothing. */
    method DeleteBatteryChange(id: Guid)
      requires Valid()
      modifies this
      ensures Valid()
      ensures match IndexOfKey(old(records), BatteryChangeId, id)
        case None => records == old(records)
        case Some(i) => records == old(records)[..i] + old(records)[i + 1..]
      ensures Keys(records, BatteryChangeId) == old(Keys(records, BatteryChangeId)) - {id}
      ensures forall b :: b in records <==> b in old(records) && b.id != id
      ensures GetBatteryChangeById(id).None?
    {
      var found := IndexOfKey(records, BatteryChangeId, id);
      if found.Some? {
        var i := found.value;
        RemoveKeepsOthers(records, BatteryChangeId, i);
        records := records[..i] + records[i + 1..];
      }
    }
  }
}
