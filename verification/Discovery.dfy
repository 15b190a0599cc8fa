// Comparing a discovery pass with the stored areas, and persisting the outcome.
module Discovery {
  import opened Areas

  datatype Discovered = Discovered(area: AreaRef, size: nat)

  datatype ChangeKind = Added | GrownTo | ShrunkTo | Gone | Unchanged

  datatype Change = Change(kind: ChangeKind, area: AreaRef)

  type Found = map<AreaRef, nat>

  // The last report of an area counts.
  function ByKey(areas: seq<Discovered>): Found {
    if areas == [] then map[]
    else ByKey(areas[..|areas| - 1])[areas[|areas| - 1].area := areas[|areas| - 1].size]
  }

  function KindOf(stored: map<AreaRef, AreaRow>, found: Found, area: AreaRef): ChangeKind {
    if area !in found then Gone
    else if area !in stored then Added
    else if found[area] > stored[area].size then GrownTo
    else if found[area] < stored[area].size then ShrunkTo
    else Unchanged
  }

  // Every stored or found area is reported exactly once, with what happened to it.
  predicate IsDiff(changes: seq<Change>, stored: map<AreaRef, AreaRow>, found: Found) {
    && (forall i :: 0 <= i < |changes| ==>
          changes[i].area in stored.Keys + found.Keys && changes[i].kind == KindOf(stored, found, changes[i].area))
    && (forall i, j :: 0 <= i < j < |changes| ==> changes[i].area != changes[j].area)
    && (forall area :: area in stored.Keys + found.Keys ==> exists i :: 0 <= i < |changes| && changes[i].area == area)
  }

  // Every area of `areas` is reported exactly once, with its kind.
  predicate Covers(changes: seq<Change>, areas: set<AreaRef>, stored: map<AreaRef, AreaRow>, found: Found) {
    && (forall i :: 0 <= i < |changes| ==>
          changes[i].area in areas && changes[i].kind == KindOf(stored, found, changes[i].area))
    && (forall i, j :: 0 <= i < j < |changes| ==> changes[i].area != changes[j].area)
    && (forall area :: area in areas ==> exists i :: 0 <= i < |changes| && changes[i].area == area)
  }

  lemma {:induction false} CoversOneMore(changes: seq<Change>, areas: set<AreaRef>, stored: map<AreaRef, AreaRow>,
                                         found: Found, change: Change)
    requires Covers(changes, areas, stored, found)
    requires change.area !in areas && change.kind == KindOf(stored, found, change.area)
    ensures Covers(changes + [change], areas + {change.area}, stored, found)
  {
    var more := changes + [change];
    forall area | area in areas + {change.area}
      ensures exists i :: 0 <= i < |more| && more[i].area == area
    {
      if area == change.area {
        assert more[|changes|].area == area;
      } else {
        var i :| 0 <= i < |changes| && changes[i].area == area;
        assert more[i].area == area;
      }
    }
  }

  method DiffDiscovery(stored: map<AreaRef, AreaRow>, found: Found) returns (changes: seq<Change>)
    ensures IsDiff(changes, stored, found)
  {
    changes := [];
    var done: set<AreaRef>, present := {}, found.Keys;
    while present != {}
      invariant present <= found.Keys && done == found.Keys - present && Covers(changes, done, stored, found)
      decreases present
    {
      var area :| area in present;
      var change := Change(
        if area !in stored then Added
        else if found[area] > stored[area].size then GrownTo
        else if found[area] < stored[area].size then ShrunkTo
        else Unchanged, area);
      CoversOneMore(changes, done, stored, found, change);
      changes := changes + [change];
      done, present := done + {area}, present - {area};
    }
    var missing := stored.Keys - found.Keys;
    while missing != {}
      invariant missing <= stored.Keys - found.Keys
      invariant done == found.Keys + (stored.Keys - found.Keys - missing) && Covers(changes, done, stored, found)
      decreases missing
    {
      var area :| area in missing;
      CoversOneMore(changes, done, stored, found, Change(Gone, area));
      changes := changes + [Change(Gone, area)];
      done := done + {area};
      missing := missing - {area};
    }
    assert done == stored.Keys + found.Keys;
  }

  // ---------------------------------------------------------------- persisting

  function StatusFor(kind: ChangeKind): AreaStatus {
    match kind
    case Added => New
    case GrownTo => Grown
    case ShrunkTo => Shrunk
    case Gone => Missing
    case Unchanged => Ok
  }

  function KeysOf(connection: nat, found: Found): set<AreaKey> {
    set area | area in found :: AreaKey(connection, area)
  }

  // One row after the pass; a found area exists afterwards.
  function RowAfter(areas: AreaTable, key: AreaKey, found: Found, mirror: bool): AreaRow
    requires key in areas || key.area in found
  {
    if key.area !in found then areas[key].(status := Missing)
    else if key !in areas then AreaRow(found[key.area], mirror, New)
    else AreaRow(found[key.area], areas[key].exposed,
                 if found[key.area] > areas[key].size then Grown
                 else if found[key.area] < areas[key].size then Shrunk
                 else Ok)
  }

  // The table after a pass over one connection. A pass that found nothing but errors changes
  // nothing.
  function AfterDiscovery(areas: AreaTable, connection: nat, mirror: bool, reported: seq<Discovered>, anyError: bool)
    : AreaTable {
    var found := ByKey(reported);
    if reported == [] && anyError then areas
    else map k | k in areas.Keys + KeysOf(connection, found) :: RowOf(areas, connection, found, mirror, k)
  }

  function RowOf(areas: AreaTable, connection: nat, found: Found, mirror: bool, key: AreaKey): AreaRow
    requires key in areas.Keys + KeysOf(connection, found)
  {
    if key.connection == connection then RowAfter(areas, key, found, mirror) else areas[key]
  }

  // Rows changed so far are final, the others untouched.
  ghost predicate PartlyApplied(areas: AreaTable, before: AreaTable, connection: nat, found: Found, mirror: bool,
                                done: set<AreaRef>)
  {
    && areas.Keys == before.Keys + (set a | a in done && a in found :: AreaKey(connection, a))
    && (forall k :: k in areas ==>
          if k.connection == connection && k.area in done then
            (k in before || k.area in found) && areas[k] == RowAfter(before, k, found, mirror)
          else k in before && areas[k] == before[k])
  }

  // One more area persisted, as a status change when it is gone, otherwise as an upsert.
  lemma {:induction false} OneMoreApplied(areas: AreaTable, before: AreaTable, connection: nat, found: Found,
                                          mirror: bool, done: set<AreaRef>, area: AreaRef, key: AreaKey)
    requires area !in done && PartlyApplied(areas, before, connection, found, mirror, done)
    requires key == AreaKey(connection, area) && (key in before || area in found)
    ensures key in areas <==> key in before
    ensures key in areas ==> areas[key] == before[key]
    ensures PartlyApplied(areas[key := RowAfter(before, key, found, mirror)], before, connection, found, mirror,
                          done + {area})
  {
  }

  method ApplyOne(db: Database, connection: nat, mirror: bool, found: Found, change: Change, ghost before: AreaTable,
                  ghost done: set<AreaRef>)
    requires change.area !in done && PartlyApplied(db.areas, before, connection, found, mirror, done)
    requires change.area in OfConnection(before, connection).Keys + found.Keys
    requires change.kind == KindOf(OfConnection(before, connection), found, change.area)
    modifies db`areas
    ensures PartlyApplied(db.areas, before, connection, found, mirror, done + {change.area})
  {
    var key := AreaKey(connection, change.area);
    OneMoreApplied(db.areas, before, connection, found, mirror, done, change.area, key);
    if change.kind == Gone {
      db.SetAreaStatus(key, Missing);
    } else {
      db.UpsertArea(key, found[change.area], StatusFor(change.kind), mirror);
      // A second step in Mirror All, exposing an added row that is not exposed, finds nothing
      // to do: the row was just inserted exposed.
    }
  }

  method ApplyDiscovery(db: Database, connection: nat, mirror: bool, reported: seq<Discovered>, anyError: bool)
    returns (changes: seq<Change>)
    modifies db`areas
    ensures db.areas == AfterDiscovery(old(db.areas), connection, mirror, reported, anyError)
    ensures if reported == [] && anyError then changes == []
            else IsDiff(changes, OfConnection(old(db.areas), connection), ByKey(reported))
  {
    if reported == [] && anyError {
      return [];
    }
    var found := ByKey(reported);
    ghost var before := db.areas;
    var stored := OfConnection(db.areas, connection);
    changes := DiffDiscovery(stored, found);
    for n := 0 to |changes|
      invariant PartlyApplied(db.areas, before, connection, found, mirror, AreasOf(changes[..n]))
    {
      OneMoreArea(changes, n);
      ApplyOne(db, connection, mirror, found, changes[n], before, AreasOf(changes[..n]));
    }
    assert changes[..|changes|] == changes;
    EveryAreaApplied(db.areas, before, connection, mirror, reported, anyError, changes);
  }

  ghost function AreasOf(changes: seq<Change>): set<AreaRef> {
    set c | c in changes :: c.area
  }

  lemma {:induction false} OneMoreArea(changes: seq<Change>, n: nat)
    requires n < |changes| && forall i, j :: 0 <= i < j < |changes| ==> changes[i].area != changes[j].area
    ensures changes[n].area !in AreasOf(changes[..n])
    ensures AreasOf(changes[..n + 1]) == AreasOf(changes[..n]) + {changes[n].area}
  {
    assert changes[..n + 1] == changes[..n] + [changes[n]];
  }

  lemma {:induction false} EveryRowApplied(after: AreaTable, before: AreaTable, connection: nat, mirror: bool,
                                           found: Found, done: set<AreaRef>, key: AreaKey)
    requires done == OfConnection(before, connection).Keys + found.Keys
    requires PartlyApplied(after, before, connection, found, mirror, done) && key in after
    ensures key in before.Keys + KeysOf(connection, found)
            && after[key] == RowOf(before, connection, found, mirror, key)
  {
    AllKeysPresent(done, before, connection, found);
    assert key.connection == connection && key in before ==> key.area in OfConnection(before, connection);
  }

  lemma {:induction false} EveryAreaApplied(after: AreaTable, before: AreaTable, connection: nat, mirror: bool,
                                            reported: seq<Discovered>, anyError: bool, changes: seq<Change>)
    requires !(reported == [] && anyError)
    requires IsDiff(changes, OfConnection(before, connection), ByKey(reported))
    requires PartlyApplied(after, before, connection, ByKey(reported), mirror, AreasOf(changes))
    ensures after == AfterDiscovery(before, connection, mirror, reported, anyError)
  {
    var found := ByKey(reported);
    var done := AreasOf(changes);
    EveryAreaDone(changes, OfConnection(before, connection), found);
    AllKeysPresent(done, before, connection, found);
    forall k | k in after
      ensures k in before.Keys + KeysOf(connection, found) && after[k] == RowOf(before, connection, found, mirror, k)
    {
      EveryRowApplied(after, before, connection, mirror, found, done, k);
    }
  }

  lemma {:induction false} AllKeysPresent(done: set<AreaRef>, before: AreaTable, connection: nat, found: Found)
    requires found.Keys <= done
    ensures (set a | a in done && a in found :: AreaKey(connection, a)) == KeysOf(connection, found)
  {
  }

  lemma {:induction false} EveryAreaDone(changes: seq<Change>, stored: map<AreaRef, AreaRow>, found: Found)
    requires IsDiff(changes, stored, found)
    ensures AreasOf(changes) == stored.Keys + found.Keys
  {
    forall a | a in stored.Keys + found.Keys
      ensures a in AreasOf(changes)
    {
      var i :| 0 <= i < |changes| && changes[i].area == a;
      assert changes[i] in changes;
    }
  }

  // ---------------------------------------------------------------- what a pass can and cannot do

  // No row disappears, no existing exposure decision changes, other connections are untouched,
  // and a new row is exposed exactly in Mirror All mode.
  lemma {:induction false} DiscoveryNeverExposes(areas: AreaTable, connection: nat, mirror: bool,
                                                 reported: seq<Discovered>, anyError: bool, key: AreaKey)
    ensures var after := AfterDiscovery(areas, connection, mirror, reported, anyError);
            && (key in areas ==> key in after && after[key].exposed == areas[key].exposed)
            && (key in after && key !in areas ==> key.connection == connection && after[key].exposed == mirror)
            && (key.connection != connection ==>
                  && (key in after <==> key in areas)
                  && (key in areas ==> after[key] == areas[key]))
  {
  }

  // A row reported smaller is flagged SHRUNK at its new size; the flag survives the next pass
  // exactly when that one reports a still smaller size. Seen again at the new size, it reads OK
  // without any operator's confirmation.
  lemma {:induction false} ShrunkSurvivesIffShrinkingAgain(areas: AreaTable, connection: nat, mirror: bool,
                                                           first: seq<Discovered>, second: seq<Discovered>,
                                                           anyError: bool, area: AreaRef)
    requires AreaKey(connection, area) in areas
    requires area in ByKey(first) && ByKey(first)[area] < areas[AreaKey(connection, area)].size
    requires area in ByKey(second)
    ensures var key := AreaKey(connection, area);
            var once := AfterDiscovery(areas, connection, mirror, first, anyError);
            var twice := AfterDiscovery(once, connection, mirror, second, anyError);
            && once[key].status == Shrunk && once[key].size == ByKey(first)[area]
            && (twice[key].status == Shrunk <==> ByKey(second)[area] < ByKey(first)[area])
            && (ByKey(second)[area] == ByKey(first)[area] ==> twice[key].status == Ok)
  {
    assert first != [] && second != [];
  }

  // Four bytes, then two, then two again: flagged at the first pass, fine at the second.
  lemma {:induction false} SecondPassForgetsTheShrinking(exposed: bool)
    ensures var key := AreaKey(1, DataBlock(1));
            var once := AfterDiscovery(map[key := AreaRow(4, exposed, Ok)], 1, false, [Discovered(DataBlock(1), 2)],
                                       false);
            once[key] == AreaRow(2, exposed, Shrunk)
            && AfterDiscovery(once, 1, false, [Discovered(DataBlock(1), 2)], false)[key] == AreaRow(2, exposed, Ok)
  {
    var found := ByKey([Discovered(DataBlock(1), 2)]);
    assert [Discovered(DataBlock(1), 2)][..0] == [];
    assert found == map[DataBlock(1) := 2];
    assert AreaKey(1, DataBlock(1)) in KeysOf(1, found);
  }
}
