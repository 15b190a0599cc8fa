// The newest read of every polled area.
module DataStore {
  import opened Wrappers
  import opened Bytes
  import opened Areas

  datatype Snapshot = Snapshot(data: seq<Byte>, readAt: real, ok: bool)
  {
    // A clock set back makes a read no younger than now.
    function Age(now: real): real {
      if now - readAt > 0.0 then now - readAt else 0.0
    }

    predicate IsFresh(maxAge: real, now: real) {
      ok && Age(now) <= maxAge
    }
  }

  type Snapshots = map<AreaKey, Snapshot>

  // The previous payload is kept for diagnostics, marked bad.
  function AfterFailure(snapshots: Snapshots, key: AreaKey): Snapshots {
    snapshots[key := if key in snapshots then snapshots[key].(ok := false) else Snapshot([], 0.0, false)]
  }

  predicate FreshIn(snapshots: Snapshots, key: AreaKey, maxAge: real, now: real) {
    key in snapshots && snapshots[key].IsFresh(maxAge, now)
  }

  function Retained(snapshots: Snapshots, keys: set<AreaKey>): Snapshots {
    map k | k in snapshots && k in keys :: snapshots[k]
  }

  function WithoutSnapshotsOf(snapshots: Snapshots, connection: nat): Snapshots {
    map k | k in snapshots && k.connection != connection :: snapshots[k]
  }

  class Store {
    var snapshots: Snapshots

    constructor ()
      ensures snapshots == map[]
    {
      snapshots := map[];
    }

    method Publish(key: AreaKey, data: seq<Byte>, readAt: real)
      modifies this
      ensures snapshots == old(snapshots)[key := Snapshot(data, readAt, true)]
    {
      snapshots := snapshots[key := Snapshot(data, readAt, true)];
    }

    method PublishFailure(key: AreaKey)
      modifies this
      ensures snapshots == AfterFailure(old(snapshots), key)
    {
      var data: seq<Byte>, readAt := [], 0.0;
      if key in snapshots {
        data, readAt := snapshots[key].data, snapshots[key].readAt;
      }
      snapshots := snapshots[key := Snapshot(data, readAt, false)];
    }

    method Fresh(key: AreaKey, maxAge: real, now: real) returns (snapshot: Option<Snapshot>)
      ensures snapshot.Some? <==> FreshIn(snapshots, key, maxAge, now)
      ensures snapshot.Some? ==> snapshot.value == snapshots[key]
    {
      if key in snapshots && snapshots[key].IsFresh(maxAge, now) {
        snapshot := Some(snapshots[key]);
      } else {
        snapshot := None;
      }
    }

    method Drop(key: AreaKey)
      modifies this
      ensures snapshots == old(snapshots) - {key}
    {
      snapshots := snapshots - {key};
    }

    // Yields how many snapshots were dropped.
    method Retain(keys: set<AreaKey>) returns (dropped: nat)
      modifies this
      ensures snapshots == Retained(old(snapshots), keys)
      ensures dropped == |old(snapshots)| - |snapshots|
    {
      var before := snapshots;
      var stale := set k | k in snapshots && k !in keys;
      dropped := 0;
      var todo := stale;
      while todo != {}
        invariant todo <= stale && stale <= before.Keys
        invariant snapshots == before - (stale - todo)
        invariant dropped == |before| - |snapshots|
        decreases todo
      {
        var key :| key in todo;
        var smaller := snapshots - {key};
        assert smaller.Keys == snapshots.Keys - {key};
        assert |smaller| == |smaller.Keys| == |snapshots.Keys| - 1;
        snapshots := smaller;
        todo := todo - {key};
        dropped := dropped + 1;
      }
    }

    method DropConnection(connection: nat)
      modifies this
      ensures snapshots == WithoutSnapshotsOf(old(snapshots), connection)
    {
      snapshots := WithoutSnapshotsOf(snapshots, connection);
    }
  }
}
