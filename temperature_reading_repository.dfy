/** `TemperatureReadingRepository` (Infrastructure/Repositories) over an in-memory container. */
module TemperatureReadings {

  import opened Wrappers
  import opened Entities
  import opened Queries
  import opened Storage

  /**
   * The filter `GetReadingsByDeviceId` applies as written: it keeps the
   * readings whose own `Id`, not their `DeviceId`, equals the argument.
   */
  function ReadingsWithId(records: seq<Reading>, deviceId: Key): (r: seq<Reading>)
    ensures forall x :: x in r <==> x in records && x.id == deviceId
    ensures forall x :: multiset(r)[x] == if x.id == deviceId then multiset(records)[x] else 0
  {
    WhereKey(records, ReadingId, deviceId)
  }

  /** The filter the name and the documentation describe: the readings of one device. */
  function ReadingsOfDevice(records: seq<Reading>, deviceId: DeviceKey): (r: seq<Reading>)
    ensures forall x :: x in r <==> x in records && x.deviceId == deviceId
    ensures forall x :: multiset(r)[x] == if x.deviceId == deviceId then multiset(records)[x] else 0
  {
    WhereKey(records, ReadingDeviceId, deviceId)
  }

  /** Over readings keyed by `Id`, both filters list each reading at most once. */
  lemma FiltersListReadingsOnce(records: seq<Reading>, deviceId: Key)
    requires UniqueKeys(records, ReadingId)
    ensures forall x :: multiset(ReadingsWithId(records, deviceId))[x] <= 1
    ensures forall x :: multiset(ReadingsOfDevice(records, deviceId))[x] <= 1
  {
    UniqueKeysOccurOnce(records, ReadingId);
  }

  /**
   * A store holding one reading of device "device-1": asking for that
   * device's readings as written returns nothing, while the device filter
   * returns the reading.
   */
  lemma ReadingsByDeviceIdMissesDeviceReadings()
    ensures var stored := TemperatureReading("reading-1", "device-1", 1, None, Temperature(0));
      && ReadingsWithId([stored], "device-1") == []
      && ReadingsOfDevice([stored], "device-1") == [stored]
  {
    var stored := TemperatureReading("reading-1", "device-1", 1, None, Temperature(0));
    assert stored.id != "device-1";
    assert ReadingsOfDevice([stored], "device-1")[0] == stored;
  }

  class TemperatureReadingRepository {
    var records: seq<Reading>

    /** Readings are keyed by `Id`. */
    ghost predicate Valid()
      reads this
    {
      UniqueKeys(records, ReadingId)
    }

    constructor ()
      ensures Valid() && records == []
    {
      records := [];
    }

    /** `GetTemperatureReadingById`: the reading with that id, or `None` (null) when there is none. */
    function GetTemperatureReadingById(id: Guid): (r: Option<Reading>)
      reads this
      ensures r.None? <==> forall x :: x in records ==> x.id != id
      ensures r.Some? ==> r.value in records && r.value.id == id
    {
      FindByKey(records, ReadingId, id)
    }

    /** Every stored reading is found under its own id. */
    lemma GetByIdFindsStored(x: Reading)
      requires Valid() && x in records
      ensures GetTemperatureReadingById(x.id) == Some(x)
    {
      FindUniqueKey(records, ReadingId, x);
    }

    /** `GetReadingsByDeviceId` as written: the readings whose `Id` is the argument, so at most one. */
    function GetReadingsByDeviceId(deviceId: Key): (r: seq<Reading>)
      reads this
      ensures forall x :: x in r <==> x in records && x.id == deviceId
      ensures forall x :: multiset(r)[x] == if x.id == deviceId then multiset(records)[x] else 0
    {
      ReadingsWithId(records, deviceId)
    }

    /** Ids are unique, so the as-written device filter returns at most one reading. */
    lemma ReadingsByDeviceIdAtMostOne(deviceId: Key)
      requires Valid()
      ensures |GetReadingsByDeviceId(deviceId)| <= 1
    {
      WhereUniqueKeyAtMostOne(records, ReadingId, deviceId);
    }

    /** `AddReading`: appends the reading; a taken id makes the save fail and leaves the store as it was. */
    method AddReading(reading: Reading) returns (outcome: SaveOutcome)
      requires Valid()
      modifies this
      ensures Valid()
      ensures outcome == Saved <==> forall x :: x in old(records) ==> x.id != reading.id
      ensures outcome == Saved ==> records == old(records) + [reading]
      ensures outcome == Saved ==> Keys(records, ReadingId) == old(Keys(records, ReadingId)) + {reading.id}
      ensures outcome == Saved ==> GetTemperatureReadingById(reading.id) == Some(reading)
      ensures outcome == DuplicateKey ==> records == old(records)
    {
      if IndexOfKey(records, ReadingId, reading.id).None? {
        AppendKeepsUnique(records, ReadingId, reading);
        records := records + [reading];
        FindUniqueKey(records, ReadingId, reading);
        outcome := Saved;
      } else {
        outcome := DuplicateKey;
      }
    }

    /**
     * `UpdateReading`: the stored reading with the same id takes the given
     * device, instant and temperature and keeps its id and signal strength;
     * an unknown id changes nothing.
     */
    method UpdateReading(reading: Reading)
      requires Valid()
      modifies this
      ensures Valid()
      ensures Keys(records, ReadingId) == old(Keys(records, ReadingId))
      ensures match IndexOfKey(old(records), ReadingId, reading.id)
        case None => records == old(records)
        case Some(i) => records == old(records)[i := old(records)[i].(
            deviceId := reading.deviceId, createdAt := reading.createdAt, temperature := reading.temperature)]
      ensures GetTemperatureReadingById(reading.id) ==
        match old(GetTemperatureReadingById(reading.id))
        case None => None
        case Some(x) => Some(x.(deviceId := reading.deviceId, createdAt := reading.createdAt, temperature := reading.temperature))
    {
      var found := IndexOfKey(records, ReadingId, reading.id);
      if found.Some? {
        var i := found.value;
        var doc := records[i].(deviceId := reading.deviceId, createdAt := reading.createdAt, temperature := reading.temperature);
        ReplaceKeepsUnique(records, ReadingId, i, doc);
        records := records[i := doc];
        assert records[i] == doc;
        FindUniqueKey(records, ReadingId, doc);
      }
    }

    /** `DeleteReading`: removes the reading with that id and nothing else; an unknown id changes nothing. */
    method DeleteReading(id: Guid)
      requires Valid()
      modifies this
      ensures Valid()
      ensures match IndexOfKey(old(records), ReadingId, id)
        case None => records == old(records)
        case Some(i) => records == old(records)[..i] + old(records)[i + 1..]
      ensures Keys(records, ReadingId) == old(Keys(records, ReadingId)) - {id}
      ensures forall x :: x in records <==> x in old(records) && x.id != id
      ensures GetTemperatureReadingById(id).None?
    {
      var found := IndexOfKey(records, ReadingId, id);
      if found.Some? {
        var i := found.value;
        RemoveKeepsOthers(records, ReadingId, i);
        records := records[..i] + records[i + 1..];
      }
    }
  }
}
