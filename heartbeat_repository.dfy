/** `HeartbeatRepository` (Infrastructure/Repositories) over an in-memory container. */
module Heartbeats {

  import opened Wrappers
  import opened Entities
  import opened Queries
  import opened Storage

  class HeartbeatRepository {
    var records: seq<Heartbeat>

    /** Heartbeats are keyed by `Id`. */
    ghost predicate Valid()
      reads this
    {
      UniqueKeys(records, HeartbeatId)
    }

    constructor ()
      ensures Valid() && records == []
    {
      records := [];
    }

    /**
     * `GetLatestHeartbeatAsync`: among the device's heartbeats, the one a
     * descending sort on `CreatedAt` puts first; `None` when the device has none.
     */
    function GetLatestHeartbeat(deviceId: DeviceKey): (r: Option<Heartbeat>)
      reads this
      ensures r.None? <==> forall h :: h in records ==> h.deviceId != deviceId
      ensures r.Some? ==> r.value in records && r.value.deviceId == deviceId
      ensures r.Some? ==> forall h :: h in records && h.deviceId == deviceId ==> h.createdAt <= r.value.createdAt
    {
      var own := WhereKey(records, HeartbeatDeviceId, deviceId);
      var latest := Latest(own, HeartbeatCreatedAt);
      assert latest.Some? ==> forall h :: h in own ==> HeartbeatCreatedAt(h) <= HeartbeatCreatedAt(latest.value);
      assert latest.None? ==> own == [];
      latest
    }

    /** The window `GetHeartbeatsLast24hAsync` keeps: the device's heartbeats since 24 hours before `now`, inclusive. */
    static predicate InLast24h(h: Heartbeat, deviceId: DeviceKey, now: Instant)
    {
      h.deviceId == deviceId && h.createdAt >= now - 24 * TicksPerHour
    }

    /**
     * `GetHeartbeatsLast24hAsync` at the instant `now`: the device's
     * heartbeats created no earlier than 24 hours before `now`.
     */
    function GetHeartbeatsLast24h(deviceId: DeviceKey, now: Instant): (r: seq<Heartbeat>)
      reads this
      ensures forall h :: h in r <==> h in records && h.deviceId == deviceId && h.createdAt >= now - 24 * TicksPerHour
      ensures forall h :: multiset(r)[h] == if InLast24h(h, deviceId, now) then multiset(records)[h] else 0
    {
      var since := now - 24 * TicksPerHour;
      Where(records, (h: Heartbeat) => h.deviceId == deviceId && h.createdAt >= since)
    }

    /** `GetHeartbeatByIdAsync`: the heartbeat with that id, or `None`. */
    function GetHeartbeatById(id: Guid): (r: Option<Heartbeat>)
      reads this
      ensures r.None? <==> forall h :: h in records ==> h.id != id
      ensures r.Some? ==> r.value in records && r.value.id == id
    {
      FindByKey(records, HeartbeatId, id)
    }

    /** Every stored heartbeat is found under its own id. */
    lemma GetByIdFindsStored(h: Heartbeat)
      requires Valid() && h in records
      ensures GetHeartbeatById(h.id) == Some(h)
    {
      FindUniqueKey(records, HeartbeatId, h);
    }

    /** `GetHeartbeatsByDeviceIdAsync`: exactly the heartbeats of that device. */
    function GetHeartbeatsByDeviceId(deviceId: DeviceKey): (r: seq<Heartbeat>)
      reads this
      ensures forall h :: h in r <==> h in records && h.deviceId == deviceId
      ensures forall h :: multiset(r)[h] == if h.deviceId == deviceId then multiset(records)[h] else 0
    {
      WhereKey(records, HeartbeatDeviceId, deviceId)
    }

    /** Heartbeats are keyed by `Id`, so the device queries list each heartbeat at most once. */
    lemma DeviceHeartbeatsOccurOnce(deviceId: DeviceKey, now: Instant)
      requires Valid()
      ensures forall h :: multiset(GetHeartbeatsByDeviceId(deviceId))[h] <= 1
      ensures forall h :: multiset(GetHeartbeatsLast24h(deviceId, now))[h] <= 1
    {
      UniqueKeysOccurOnce(records, HeartbeatId);
    }

    /** `GetAllHeartbeatsAsync`: every stored heartbeat, in store order. */
    function GetAllHeartbeats(): (r: seq<Heartbeat>)
      reads this
      ensures forall h :: h in r <==> h in records
      ensures multiset(r) == multiset(records)
      ensures |r| == |records|
    {
      records
    }

    /** `HeartbeatExistsAsync`: true exactly when looking the id up finds a heartbeat. */
    function HeartbeatExists(id: Guid): (b: bool)
      reads this
      ensures b <==> GetHeartbeatById(id).Some?
    {
      Any(records, (h: Heartbeat) => h.id == id)
    }

    /** `AddHeartbeatAsync`: appends the heartbeat, which then shows in `GetAllHeartbeatsAsync`. */
    method AddHeartbeat(heartbeat: Heartbeat) returns (outcome: SaveOutcome)
      requires Valid()
      modifies this
      ensures Valid()
      ensures outcome == Saved <==> forall h :: h in old(records) ==> h.id != heartbeat.id
      ensures outcome == Saved ==> records == old(records) + [heartbeat]
      ensures outcome == Saved ==> Keys(records, HeartbeatId) == old(Keys(records, HeartbeatId)) + {heartbeat.id}
      ensures outcome == Saved ==> GetHeartbeatById(heartbeat.id) == Some(heartbeat)
      ensures outcome == Saved ==> heartbeat in GetAllHeartbeats()
      ensures outcome == DuplicateKey ==> records == old(records)
    {
      if IndexOfKey(records, HeartbeatId, heartbeat.id).None? {
        AppendKeepsUnique(records, HeartbeatId, heartbeat);
        records := records + [heartbeat];
        FindUniqueKey(records, HeartbeatId, heartbeat);
        outcome := Saved;
      } else {
        outcome := DuplicateKey;
      }
    }

    /**
     * `UpdateHeartbeatAsync`: the stored heartbeat with the same id takes the
     * given device and instant; an unknown id changes nothing.
     */
    method UpdateHeartbeat(heartbeat: Heartbeat)
      requires Valid()
      modifies this
      ensures Valid()
      ensures Keys(records, HeartbeatId) == old(Keys(records, HeartbeatId))
      ensures match IndexOfKey(old(records), HeartbeatId, heartbeat.id)
        case None => records == old(records)
        case Some(i) => records == old(records)[i := old(records)[i].(
            deviceId := heartbeat.deviceId, createdAt := heartbeat.createdAt)]
      ensures GetHeartbeatById(heartbeat.id) ==
        match old(GetHeartbeatById(heartbeat.id))
        case None => None
        case Some(h) => Some(h.(deviceId := heartbeat.deviceId, createdAt := heartbeat.createdAt))
    {
      var found := IndexOfKey(records, HeartbeatId, heartbeat.id);
      if found.Some? {
        var i := found.value;
        var doc := records[i].(deviceId := heartbeat.deviceId, createdAt := heartbeat.createdAt);
        ReplaceKeepsUnique(records, HeartbeatId, i, doc);
        records := records[i := doc];
        assert records[i] == doc;
        FindUniqueKey(records, HeartbeatId, doc);
      }
    }

    /** `DeleteHeartbeatAsync`: removes the heartbeat with that id and nothing else; an unknown id changes nothing. */
    method DeleteHeartbeat(id: Guid)
      requires Valid()
      modifies this
      ensures Valid()
      ensures match IndexOfKey(old(records), HeartbeatId, id)
        case None => records == old(records)
        case Some(i) => records == old(records)[..i] + old(records)[i + 1..]
      ensures Keys(records, HeartbeatId) == old(Keys(records, HeartbeatId)) - {id}
      ensures forall h :: h in records <==> h in old(records) && h.id != id
      ensures !HeartbeatExists(id)
    {
      var found := IndexOfKey(records, HeartbeatId, id);
      if found.Some? {
        var i := found.value;
        RemoveKeepsOthers(records, HeartbeatId, i);
        records := records[..i] + records[i + 1..];
      }
    }
  }
}
