// What a discovery pass leaves in the table, row by row, from what it reported.
module DiscoveryLaws {
  import opened Areas
  import opened Discovery

  // The last report of the area, at i, counts.
  predicate IsLastReport(reported: seq<Discovered>, i: nat, area: AreaRef) {
    && i < |reported| && reported[i].area == area
    && forall j :: i < j < |reported| ==> reported[j].area != area
  }

  predicate Reports(reported: seq<Discovered>, area: AreaRef) {
    exists j :: 0 <= j < |reported| && reported[j].area == area
  }

  lemma {:induction false} ByKeyIsReported(reported: seq<Discovered>, area: AreaRef)
    ensures area in ByKey(reported) <==> Reports(reported, area)
    decreases |reported|
  {
    if reported != [] {
      var n := |reported| - 1;
      ByKeyIsReported(reported[..n], area);
      if area in ByKey(reported[..n]) {
        var j :| 0 <= j < n && reported[..n][j].area == area;
        assert reported[j].area == area;
      }
    }
  }

  lemma {:induction false} ByKeyIsTheLast(reported: seq<Discovered>, i: nat, area: AreaRef)
    requires IsLastReport(reported, i, area)
    ensures area in ByKey(reported) && ByKey(reported)[area] == reported[i].size
    decreases |reported|
  {
    var n := |reported| - 1;
    if i < n {
      ByKeyIsTheLast(reported[..n], i, area);
    }
  }

  // An area of the connection that was reported has the size last reported; it is NEW if it was not
  // known, and GROWN, SHRUNK or OK as its size rose, fell or stayed.
  lemma {:induction false} ReportedAreaAfter(areas: AreaTable, connection: nat, mirror: bool,
                                             reported: seq<Discovered>, anyError: bool, i: nat, area: AreaRef)
    requires IsLastReport(reported, i, area)
    ensures var key, size := AreaKey(connection, area), reported[i].size;
            var after := AfterDiscovery(areas, connection, mirror, reported, anyError);
            && key in after && after[key].size == size
            && (after[key].status == New <==> key !in areas)
            && (after[key].status == Grown <==> key in areas && size > areas[key].size)
            && (after[key].status == Shrunk <==> key in areas && size < areas[key].size)
            && (after[key].status == Ok <==> key in areas && size == areas[key].size)
  {
    ByKeyIsTheLast(reported, i, area);
    assert AreaKey(connection, area) in KeysOf(connection, ByKey(reported));
  }

  // Any other row: of this connection it is MISSING, at the size it had; of another it is untouched;
  // and a pass of nothing but errors touches none. No other row appears.
  lemma {:induction false} UnreportedAreaAfter(areas: AreaTable, connection: nat, mirror: bool,
                                               reported: seq<Discovered>, anyError: bool, key: AreaKey)
    requires key.connection != connection || !Reports(reported, key.area)
    ensures var after := AfterDiscovery(areas, connection, mirror, reported, anyError);
            && (key in after <==> key in areas)
            && (key in areas ==>
                  after[key] == if key.connection == connection && !(reported == [] && anyError)
                                then areas[key].(status := Missing) else areas[key])
  {
    ByKeyIsReported(reported, key.area);
  }
}
