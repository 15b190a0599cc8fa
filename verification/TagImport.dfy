// Importing symbols into the tag table: deciding the outcome of every row first, then writing.
module TagImport {
  import opened Wrappers
  import opened Decoding
  import opened S7Types
  import opened Addressing
  import opened Names
  import opened Symbols

  const MAX_IMPORT_TAGS: nat := 5000
  const MAX_DESCRIPTION: nat := 255

  // An empty description stands for none.
  datatype Tag = Tag(
    connection: nat, name: string, area: Area, db: nat, byteOffset: nat, bitOffset: nat,
    dataType: DataType, length: nat, description: string)

  type Rows = map<nat, Tag>

  function Description(e: Entry): string {
    var text := Strip(e.comment);
    if |text| > MAX_DESCRIPTION then text[..MAX_DESCRIPTION] else text
  }

  function TagOf(connection: nat, e: Entry): Tag {
    Tag(connection, e.name, e.area, e.db, e.byteOffset, e.bitOffset, e.dataType, e.length, Description(e))
  }

  // The rules of the web form.
  predicate ValidEntry(e: Entry) {
    && e.area.Mirrored()
    && (e.area == DbArea ==> 1 <= e.db <= 65535)
    && e.byteOffset <= 8 * 1024 * 1024
    && NamePattern(Strip(e.name))
    && 1 <= e.length <= MAX_STRING_LENGTH
    && e.bitOffset <= 7
    && (e.bitOffset != 0 ==> e.dataType == BOOL)
    && (e.dataType != STRING ==> e.length == 1)
    && SizeOf(e.dataType, e.length).Ok?
  }

  function Key(e: Entry): string { Lower(e.name) }

  // ---------------------------------------------------------------- the tag table

  predicate InUse(rows: Rows, connection: nat, name: string, except: Option<nat>) {
    exists id :: id in rows && Some(id) != except && rows[id].connection == connection && rows[id].name == name
  }

  class TagTable {
    var rows: Rows
    var nextId: nat

    ghost predicate Valid()
      reads this
    {
      forall id :: id in rows ==> id < nextId
    }

    constructor ()
      ensures Valid() && rows == map[]
    {
      rows, nextId := map[], 0;
    }

    // Refused when the connection already has a tag of exactly this name.
    method CreateTag(tag: Tag) returns (ok: bool)
      requires Valid()
      modifies this
      ensures Valid()
      ensures ok <==> !InUse(old(rows), tag.connection, tag.name, None)
      ensures ok ==> rows == old(rows)[old(nextId) := tag] && nextId == old(nextId) + 1
      ensures !ok ==> rows == old(rows) && nextId == old(nextId)
    {
      ok := !InUse(rows, tag.connection, tag.name, None);
      if ok {
        rows := rows[nextId := tag];
        nextId := nextId + 1;
      }
    }

    // The connection of a row never changes; a missing row is left missing.
    method UpdateTag(id: nat, tag: Tag) returns (ok: bool)
      requires Valid()
      modifies this
      ensures Valid() && nextId == old(nextId)
      ensures ok <==> !(id in old(rows) && InUse(old(rows), old(rows)[id].connection, tag.name, Some(id)))
      ensures rows == if ok && id in old(rows)
                      then old(rows)[id := tag.(connection := old(rows)[id].connection)] else old(rows)
    {
      ok := true;
      if id in rows {
        ok := !InUse(rows, rows[id].connection, tag.name, Some(id));
        if ok {
          rows := rows[id := tag.(connection := rows[id].connection)];
        }
      }
    }
  }

  predicate UniqueAnyCase(rows: Rows, connection: nat) {
    forall i, j ::
      i in rows && j in rows && i != j && rows[i].connection == connection && rows[j].connection == connection ==>
        Lower(rows[i].name) != Lower(rows[j].name)
  }

  // ---------------------------------------------------------------- planning

  datatype Action = Create | Update(id: nat) | Skip(id: nat) | RejectInvalid | RejectClaimed | RejectByDatabase
  {
    predicate Writes() { Create? || Update? }
  }

  // Everything but the name, whose case may differ.
  predicate Unchanged(t: Tag, e: Entry) {
    && t.area == e.area && t.db == e.db && t.byteOffset == e.byteOffset && t.bitOffset == e.bitOffset
    && t.dataType == e.dataType && t.length == e.length && t.description == Description(e)
  }

  // `existing` leads from each lower-cased name of the connection to its row.
  predicate IsIndex(existing: map<string, nat>, rows: Rows, connection: nat) {
    && (forall k :: k in existing ==>
          existing[k] in rows && rows[existing[k]].connection == connection && Lower(rows[existing[k]].name) == k)
    && (forall id :: id in rows && rows[id].connection == connection ==> Lower(rows[id].name) in existing)
  }

  function PlanRow(e: Entry, rows: Rows, existing: map<string, nat>, claimed: set<string>, overwrite: bool): Action
    requires forall k :: k in existing ==> existing[k] in rows
  {
    if !ValidEntry(e) then RejectInvalid
    else if Key(e) in claimed then RejectClaimed
    else if Key(e) !in existing then Create
    else if !overwrite || Unchanged(rows[existing[Key(e)]], e) then Skip(existing[Key(e)])
    else Update(existing[Key(e)])
  }

  datatype Planned = Planned(actions: seq<Action>, claimed: set<string>)

  function Plan(entries: seq<Entry>, rows: Rows, existing: map<string, nat>, overwrite: bool): (p: Planned)
    requires forall k :: k in existing ==> existing[k] in rows
    ensures |p.actions| == |entries|
  {
    if entries == [] then Planned([], {})
    else
      var n := |entries| - 1;
      var front := Plan(entries[..n], rows, existing, overwrite);
      var action := PlanRow(entries[n], rows, existing, front.claimed, overwrite);
      Planned(front.actions + [action], if action.Writes() then front.claimed + {Key(entries[n])} else front.claimed)
  }

  function CountWrites(actions: seq<Action>): nat {
    if actions == [] then 0
    else CountWrites(actions[..|actions| - 1]) + if actions[|actions| - 1].Writes() then 1 else 0
  }

  function CountCreates(actions: seq<Action>): nat {
    if actions == [] then 0
    else CountCreates(actions[..|actions| - 1]) + if actions[|actions| - 1] == Create then 1 else 0
  }

  // `listed` is what the table lists for the connection, in whatever order.
  predicate Lists(listed: seq<nat>, rows: Rows, connection: nat) {
    && (forall i :: 0 <= i < |listed| ==> listed[i] in rows && rows[listed[i]].connection == connection)
    && (forall id :: id in rows && rows[id].connection == connection ==> id in listed)
  }

  method PlanImport(rows: Rows, listed: seq<nat>, connection: nat, entries: seq<Entry>, overwrite: bool)
    returns (planned: seq<Action>, existing: map<string, nat>)
    requires Lists(listed, rows, connection)
    ensures IsIndex(existing, rows, connection)
    ensures planned == Plan(entries, rows, existing, overwrite).actions
  {
    existing := map[];
    for n := 0 to |listed|
      invariant forall k :: k in existing ==>
                  && existing[k] in rows && rows[existing[k]].connection == connection
                  && Lower(rows[existing[k]].name) == k
      invariant forall i :: 0 <= i < n ==> Lower(rows[listed[i]].name) in existing
    {
      existing := existing[Lower(rows[listed[n]].name) := listed[n]];
    }
    var claimed: set<string> := {};
    planned := [];
    assert entries[..0] == [];
    for n := 0 to |entries|
      invariant Plan(entries[..n], rows, existing, overwrite) == Planned(planned, claimed)
    {
      assert entries[..n + 1][..n] == entries[..n];
      var action := PlanRow(entries[n], rows, existing, claimed, overwrite);
      planned := planned + [action];
      if action.Writes() {
        claimed := claimed + {Key(entries[n])};
      }
    }
    assert entries[..|entries|] == entries;
  }

  // ---------------------------------------------------------------- applying

  datatype Applied = Applied(rows: Rows, nextId: nat, actions: seq<Action>)

  function ApplyRow(a: Applied, connection: nat, e: Entry, action: Action): Applied {
    if action == Create then
      if InUse(a.rows, connection, e.name, None) then Applied(a.rows, a.nextId, a.actions + [RejectByDatabase])
      else Applied(a.rows[a.nextId := TagOf(connection, e)], a.nextId + 1, a.actions + [action])
    else if action.Update? && action.id in a.rows then
      if InUse(a.rows, a.rows[action.id].connection, e.name, Some(action.id))
      then Applied(a.rows, a.nextId, a.actions + [RejectByDatabase])
      else Applied(a.rows[action.id := TagOf(a.rows[action.id].connection, e)], a.nextId, a.actions + [action])
    else Applied(a.rows, a.nextId, a.actions + [action])
  }

  // The table after writing the first n planned rows.
  function Apply(rows: Rows, nextId: nat, connection: nat, entries: seq<Entry>, actions: seq<Action>, n: nat)
    : (a: Applied)
    requires n <= |entries| == |actions|
    ensures |a.actions| == n
  {
    if n == 0 then Applied(rows, nextId, [])
    else ApplyRow(Apply(rows, nextId, connection, entries, actions, n - 1), connection, entries[n - 1], actions[n - 1])
  }

  // Nothing is written when the plan exceeds the limit; a row the database refuses is turned
  // into a rejection and the rest goes on.
  method ApplyImport(table: TagTable, connection: nat, entries: seq<Entry>, planned: seq<Action>)
    returns (ok: bool, actions: seq<Action>)
    requires table.Valid() && |planned| == |entries|
    modifies table
    ensures table.Valid()
    ensures ok <==> CountWrites(planned) <= MAX_IMPORT_TAGS
    ensures !ok ==> table.rows == old(table.rows) && actions == planned
    ensures ok ==> Applied(table.rows, table.nextId, actions)
                   == Apply(old(table.rows), old(table.nextId), connection, entries, planned, |entries|)
  {
    ok, actions := CountWrites(planned) <= MAX_IMPORT_TAGS, planned;
    if ok {
      actions := [];
      for n := 0 to |entries|
        invariant table.Valid()
        invariant Applied(table.rows, table.nextId, actions)
                  == Apply(old(table.rows), old(table.nextId), connection, entries, planned, n)
      {
        var e, action := entries[n], planned[n];
        if action == Create {
          var created := table.CreateTag(TagOf(connection, e));
          actions := actions + [if created then action else RejectByDatabase];
        } else if action.Update? {
          var updated := table.UpdateTag(action.id, TagOf(connection, e));
          actions := actions + [if updated then action else RejectByDatabase];
        } else {
          actions := actions + [action];
        }
      }
    }
  }

  // ---------------------------------------------------------------- what an import does

  // What the plan decided for row i, with the names claimed before it.
  lemma {:induction false} PlanAt(entries: seq<Entry>, rows: Rows, existing: map<string, nat>, overwrite: bool, i: nat)
    requires (forall k :: k in existing ==> existing[k] in rows) && i < |entries|
    ensures Plan(entries, rows, existing, overwrite).actions[i]
            == PlanRow(entries[i], rows, existing, Plan(entries[..i], rows, existing, overwrite).claimed, overwrite)
    decreases |entries|
  {
    var n := |entries| - 1;
    if i < n {
      PlanAt(entries[..n], rows, existing, overwrite, i);
      assert entries[..n][..i] == entries[..i];
    }
  }

  lemma {:induction false} WritersHaveClaimed(entries: seq<Entry>, rows: Rows, existing: map<string, nat>,
                                              overwrite: bool, i: nat, n: nat)
    requires (forall k :: k in existing ==> existing[k] in rows) && i < n <= |entries|
    requires Plan(entries, rows, existing, overwrite).actions[i].Writes()
    ensures Key(entries[i]) in Plan(entries[..n], rows, existing, overwrite).claimed
    decreases n
  {
    assert entries[..n][..n - 1] == entries[..n - 1];
    PlanAt(entries, rows, existing, overwrite, i);
    if i < n - 1 {
      WritersHaveClaimed(entries, rows, existing, overwrite, i, n - 1);
    }
  }

  // No two planned writes share a name, in any case - whatever the file contains.
  lemma {:induction false} PlannedWritesAreDistinct(entries: seq<Entry>, rows: Rows, existing: map<string, nat>,
                                                    overwrite: bool, i: nat, j: nat)
    requires forall k :: k in existing ==> existing[k] in rows
    requires i < j < |entries|
    requires var actions := Plan(entries, rows, existing, overwrite).actions; actions[i].Writes() && actions[j].Writes()
    ensures Key(entries[i]) != Key(entries[j])
  {
    WritersHaveClaimed(entries, rows, existing, overwrite, i, j);
    PlanAt(entries, rows, existing, overwrite, j);
  }

  // A table whose connection has no two names equal in any case, and its index.
  predicate Sound(rows: Rows, nextId: nat, connection: nat, existing: map<string, nat>) {
    && IsIndex(existing, rows, connection)
    && UniqueAnyCase(rows, connection)
    && forall id :: id in rows ==> id < nextId
  }

  function PlanOf(rows: Rows, existing: map<string, nat>, entries: seq<Entry>, overwrite: bool): (actions: seq<Action>)
    requires forall k :: k in existing ==> existing[k] in rows
    ensures |actions| == |entries|
  {
    Plan(entries, rows, existing, overwrite).actions
  }

  // The row written for planned write i.
  function WrittenId(nextId: nat, actions: seq<Action>, i: nat): nat
    requires i < |actions|
  {
    if actions[i].Update? then actions[i].id else nextId + CountCreates(actions[..i])
  }

  lemma {:induction false} CreatesGrow(actions: seq<Action>, i: nat, n: nat)
    requires i <= n <= |actions|
    ensures CountCreates(actions[..i]) <= CountCreates(actions[..n])
    ensures i < n && actions[i] == Create ==> CountCreates(actions[..i]) < CountCreates(actions[..n])
    decreases n
  {
    if i < n {
      assert actions[..n][..n - 1] == actions[..n - 1];
      CreatesGrow(actions, i, n - 1);
    }
  }

  // What a planned write is about: a new name, or the one existing row of that name.
  lemma {:induction false} WriteTarget(rows: Rows, nextId: nat, connection: nat, existing: map<string, nat>,
                                       entries: seq<Entry>, overwrite: bool, i: nat)
    requires Sound(rows, nextId, connection, existing) && i < |entries|
    ensures var action := PlanOf(rows, existing, entries, overwrite)[i];
            && (action == Create ==> Key(entries[i]) !in existing)
            && (action.Update? ==> Key(entries[i]) in existing && action.id == existing[Key(entries[i])])
            && (action.Writes() ==> ValidEntry(entries[i]))
  {
    PlanAt(entries, rows, existing, overwrite, i);
  }

  lemma {:induction false} WrittenIdsDiffer(rows: Rows, nextId: nat, connection: nat, existing: map<string, nat>,
                                            entries: seq<Entry>, overwrite: bool, i: nat, j: nat)
    requires Sound(rows, nextId, connection, existing) && i < j < |entries|
    requires var actions := PlanOf(rows, existing, entries, overwrite); actions[i].Writes() && actions[j].Writes()
    ensures var actions := PlanOf(rows, existing, entries, overwrite);
            WrittenId(nextId, actions, i) != WrittenId(nextId, actions, j)
  {
    var actions := PlanOf(rows, existing, entries, overwrite);
    PlannedWritesAreDistinct(entries, rows, existing, overwrite, i, j);
    WriteTarget(rows, nextId, connection, existing, entries, overwrite, i);
    WriteTarget(rows, nextId, connection, existing, entries, overwrite, j);
    CreatesGrow(actions, i, j);
  }

  // Every row is an old one no write touched, or the one some write put there.
  ghost predicate RowExplained(a: Applied, rows: Rows, nextId: nat, connection: nat, entries: seq<Entry>,
                               actions: seq<Action>, n: nat, id: nat)
    requires n <= |entries| == |actions| && id in a.rows
  {
    || (id in rows && a.rows[id] == rows[id] && forall i :: 0 <= i < n ==> actions[i] != Update(id))
    || exists i :: 0 <= i < n && actions[i].Writes() && WrittenId(nextId, actions, i) == id
                   && a.rows[id] == TagOf(connection, entries[i])
  }

  predicate MidwayCounts(a: Applied, rows: Rows, nextId: nat, actions: seq<Action>, n: nat)
    requires n <= |actions|
  {
    && a.actions == actions[..n]
    && a.nextId == nextId + CountCreates(actions[..n])
    && |a.rows| == |rows| + CountCreates(actions[..n])
    && rows.Keys <= a.rows.Keys
    && forall id :: id in a.rows ==> id < a.nextId
  }

  ghost predicate MidwayRows(a: Applied, rows: Rows, nextId: nat, connection: nat, entries: seq<Entry>,
                             actions: seq<Action>, n: nat)
    requires n <= |entries| == |actions|
  {
    && (forall id :: id in a.rows ==> RowExplained(a, rows, nextId, connection, entries, actions, n, id))
    && (forall i :: 0 <= i < n && actions[i].Writes() ==>
          && WrittenId(nextId, actions, i) in a.rows
          && a.rows[WrittenId(nextId, actions, i)] == TagOf(connection, entries[i]))
  }

  ghost predicate Midway(a: Applied, rows: Rows, nextId: nat, connection: nat, entries: seq<Entry>,
                         actions: seq<Action>, n: nat)
    requires n <= |entries| == |actions|
  {
    MidwayCounts(a, rows, nextId, actions, n) && MidwayRows(a, rows, nextId, connection, entries, actions, n)
  }

  // No other row of the connection has, in any case, the name the next write wants.
  lemma {:induction false} NameIsFree(a: Applied, rows: Rows, nextId: nat, connection: nat, existing: map<string, nat>,
                                      entries: seq<Entry>, overwrite: bool, n: nat, id: nat)
    requires Sound(rows, nextId, connection, existing) && n < |entries|
    requires var actions := PlanOf(rows, existing, entries, overwrite);
             Midway(a, rows, nextId, connection, entries, actions, n) && actions[n].Writes() && actions[n] != Update(id)
    requires id in a.rows && a.rows[id].connection == connection
    ensures Lower(a.rows[id].name) != Key(entries[n])
  {
    var actions := PlanOf(rows, existing, entries, overwrite);
    WriteTarget(rows, nextId, connection, existing, entries, overwrite, n);
    assert RowExplained(a, rows, nextId, connection, entries, actions, n, id);
    if id in rows && a.rows[id] == rows[id] {
      assert Lower(rows[id].name) in existing;
    } else {
      var i :| 0 <= i < n && actions[i].Writes() && a.rows[id] == TagOf(connection, entries[i]);
      PlannedWritesAreDistinct(entries, rows, existing, overwrite, i, n);
    }
  }

  lemma {:induction false} NotInUse(a: Applied, rows: Rows, nextId: nat, connection: nat, existing: map<string, nat>,
                                    entries: seq<Entry>, overwrite: bool, n: nat)
    requires Sound(rows, nextId, connection, existing) && n < |entries|
    requires var actions := PlanOf(rows, existing, entries, overwrite);
             Midway(a, rows, nextId, connection, entries, actions, n) && actions[n].Writes()
    ensures var action := PlanOf(rows, existing, entries, overwrite)[n];
            !InUse(a.rows, connection, entries[n].name, if action.Update? then Some(action.id) else None)
  {
    var action := PlanOf(rows, existing, entries, overwrite)[n];
    forall id | id in a.rows && a.rows[id].connection == connection && action != Update(id)
      ensures a.rows[id].name != entries[n].name
    {
      NameIsFree(a, rows, nextId, connection, existing, entries, overwrite, n, id);
    }
  }

  // The row an update targets is still the connection's when its turn comes.
  lemma {:induction false} TargetStillThere(a: Applied, rows: Rows, nextId: nat, connection: nat,
                                            existing: map<string, nat>, entries: seq<Entry>, overwrite: bool, n: nat)
    requires Sound(rows, nextId, connection, existing) && n < |entries|
    requires var actions := PlanOf(rows, existing, entries, overwrite);
             Midway(a, rows, nextId, connection, entries, actions, n) && actions[n].Update?
    ensures var id := PlanOf(rows, existing, entries, overwrite)[n].id;
            id in rows && id in a.rows && a.rows[id].connection == connection
  {
    var actions := PlanOf(rows, existing, entries, overwrite);
    WriteTarget(rows, nextId, connection, existing, entries, overwrite, n);
    assert RowExplained(a, rows, nextId, connection, entries, actions, n, actions[n].id);
  }

  // Row `target` now holds the tag of row n of the file; every other row is as before.
  lemma {:induction false} RowsAfterWrite(a: Applied, b: Applied, rows: Rows, nextId: nat, connection: nat,
                                          entries: seq<Entry>, actions: seq<Action>, n: nat, target: nat)
    requires n < |entries| == |actions| && actions[n].Writes() && WrittenId(nextId, actions, n) == target
    requires actions[n] == Update(target) || (actions[n] == Create && target !in a.rows)
    requires b.rows == a.rows[target := TagOf(connection, entries[n])]
    requires MidwayRows(a, rows, nextId, connection, entries, actions, n)
    requires forall i :: 0 <= i < n && actions[i].Writes() ==> WrittenId(nextId, actions, i) != target
    ensures MidwayRows(b, rows, nextId, connection, entries, actions, n + 1)
  {
    forall id | id in b.rows
      ensures RowExplained(b, rows, nextId, connection, entries, actions, n + 1, id)
    {
      if id != target {
        assert RowExplained(a, rows, nextId, connection, entries, actions, n, id);
      }
    }
  }

  lemma {:induction false} MidwayCreate(a: Applied, rows: Rows, nextId: nat, connection: nat, entries: seq<Entry>,
                                        actions: seq<Action>, n: nat)
    requires n < |entries| == |actions| && actions[n] == Create
    requires Midway(a, rows, nextId, connection, entries, actions, n)
    requires !InUse(a.rows, connection, entries[n].name, None)
    ensures Midway(ApplyRow(a, connection, entries[n], Create), rows, nextId, connection, entries, actions, n + 1)
  {
    var b := ApplyRow(a, connection, entries[n], Create);
    assert actions[..n + 1][..n] == actions[..n];
    assert b == Applied(a.rows[a.nextId := TagOf(connection, entries[n])], a.nextId + 1, a.actions + [Create]);
    assert a.nextId !in a.rows;
    assert MidwayCounts(b, rows, nextId, actions, n + 1);
    RowsAfterWrite(a, b, rows, nextId, connection, entries, actions, n, a.nextId);
  }

  lemma {:induction false} MidwayUpdate(a: Applied, rows: Rows, nextId: nat, connection: nat, entries: seq<Entry>,
                                        actions: seq<Action>, n: nat, target: nat)
    requires n < |entries| == |actions| && actions[n] == Update(target)
    requires Midway(a, rows, nextId, connection, entries, actions, n)
    requires target in a.rows && a.rows[target].connection == connection
    requires !InUse(a.rows, connection, entries[n].name, Some(target))
    requires forall i :: 0 <= i < n && actions[i].Writes() ==> WrittenId(nextId, actions, i) != target
    ensures Midway(ApplyRow(a, connection, entries[n], Update(target)), rows, nextId, connection, entries, actions,
                   n + 1)
  {
    var b := ApplyRow(a, connection, entries[n], Update(target));
    assert actions[..n + 1][..n] == actions[..n];
    assert b == Applied(a.rows[target := TagOf(connection, entries[n])], a.nextId, a.actions + [Update(target)]);
    assert MidwayCounts(b, rows, nextId, actions, n + 1) by {
      assert b.rows.Keys == a.rows.Keys;
      assert |b.rows| == |b.rows.Keys| == |a.rows.Keys| == |a.rows|;
    }
    RowsAfterWrite(a, b, rows, nextId, connection, entries, actions, n, target);
  }

  lemma {:induction false} MidwayOther(a: Applied, rows: Rows, nextId: nat, connection: nat, entries: seq<Entry>,
                                       actions: seq<Action>, n: nat)
    requires n < |entries| == |actions|
    requires Midway(a, rows, nextId, connection, entries, actions, n) && !actions[n].Writes()
    ensures Midway(ApplyRow(a, connection, entries[n], actions[n]), rows, nextId, connection, entries, actions, n + 1)
  {
    var b := ApplyRow(a, connection, entries[n], actions[n]);
    assert actions[..n + 1][..n] == actions[..n];
    forall id | id in b.rows
      ensures RowExplained(b, rows, nextId, connection, entries, actions, n + 1, id)
    {
      assert RowExplained(a, rows, nextId, connection, entries, actions, n, id);
    }
  }

  // No earlier write went to the row an update targets.
  lemma {:induction false} TargetNotWritten(rows: Rows, nextId: nat, connection: nat, existing: map<string, nat>,
                                            entries: seq<Entry>, overwrite: bool, n: nat)
    requires Sound(rows, nextId, connection, existing) && n < |entries|
    requires PlanOf(rows, existing, entries, overwrite)[n].Update?
    ensures var actions := PlanOf(rows, existing, entries, overwrite);
            forall i :: 0 <= i < n && actions[i].Writes() ==> WrittenId(nextId, actions, i) != actions[n].id
  {
    var actions := PlanOf(rows, existing, entries, overwrite);
    forall i | 0 <= i < n && actions[i].Writes()
      ensures WrittenId(nextId, actions, i) != actions[n].id
    {
      WrittenIdsDiffer(rows, nextId, connection, existing, entries, overwrite, i, n);
    }
  }

  lemma {:induction false} RowIsMidway(a: Applied, rows: Rows, nextId: nat, connection: nat,
                                       existing: map<string, nat>, entries: seq<Entry>, overwrite: bool, n: nat,
                                       actions: seq<Action>)
    requires Sound(rows, nextId, connection, existing) && n < |entries|
    requires actions == PlanOf(rows, existing, entries, overwrite)
    requires Midway(a, rows, nextId, connection, entries, actions, n)
    ensures Midway(ApplyRow(a, connection, entries[n], actions[n]), rows, nextId, connection, entries, actions, n + 1)
  {
    if actions[n] == Create {
      NotInUse(a, rows, nextId, connection, existing, entries, overwrite, n);
      MidwayCreate(a, rows, nextId, connection, entries, actions, n);
    } else if actions[n].Update? {
      var target := actions[n].id;
      NotInUse(a, rows, nextId, connection, existing, entries, overwrite, n);
      TargetStillThere(a, rows, nextId, connection, existing, entries, overwrite, n);
      TargetNotWritten(rows, nextId, connection, existing, entries, overwrite, n);
      MidwayUpdate(a, rows, nextId, connection, entries, actions, n, target);
    } else {
      MidwayOther(a, rows, nextId, connection, entries, actions, n);
    }
  }

  lemma {:induction false} ApplyIsMidway(rows: Rows, nextId: nat, connection: nat, existing: map<string, nat>,
                                         entries: seq<Entry>, overwrite: bool, n: nat)
    requires Sound(rows, nextId, connection, existing) && n <= |entries|
    ensures var actions := PlanOf(rows, existing, entries, overwrite);
            Midway(Apply(rows, nextId, connection, entries, actions, n), rows, nextId, connection, entries, actions, n)
    decreases n
  {
    var actions := PlanOf(rows, existing, entries, overwrite);
    if n == 0 {
      assert actions[..0] == [];
    } else {
      ApplyIsMidway(rows, nextId, connection, existing, entries, overwrite, n - 1);
      var a := Apply(rows, nextId, connection, entries, actions, n - 1);
      RowIsMidway(a, rows, nextId, connection, existing, entries, overwrite, n - 1, actions);
      assert Apply(rows, nextId, connection, entries, actions, n)
             == ApplyRow(a, connection, entries[n - 1], actions[n - 1]);
    }
  }

  // The last word on a row: the write that put it there, if there was one.
  lemma {:induction false} WhoWrote(a: Applied, rows: Rows, nextId: nat, connection: nat, entries: seq<Entry>,
                                    actions: seq<Action>, id: nat) returns (who: Option<nat>)
    requires |entries| == |actions| && id in a.rows
    requires MidwayRows(a, rows, nextId, connection, entries, actions, |entries|)
    ensures who.None? ==>
              && id in rows && a.rows[id] == rows[id]
              && forall i :: 0 <= i < |entries| ==> actions[i] != Update(id)
    ensures who.Some? ==>
              && who.value < |entries| && actions[who.value].Writes() && WrittenId(nextId, actions, who.value) == id
              && a.rows[id] == TagOf(connection, entries[who.value])
  {
    assert RowExplained(a, rows, nextId, connection, entries, actions, |entries|, id);
    if id in rows && a.rows[id] == rows[id] && forall i :: 0 <= i < |entries| ==> actions[i] != Update(id) {
      who := None;
    } else {
      var i :| 0 <= i < |entries| && actions[i].Writes() && WrittenId(nextId, actions, i) == id
               && a.rows[id] == TagOf(connection, entries[i]);
      who := Some(i);
    }
  }

  lemma {:induction false} RowsStayApart(rows: Rows, nextId: nat, connection: nat, existing: map<string, nat>,
                                         entries: seq<Entry>, overwrite: bool, a: Applied, p: nat, q: nat)
    requires Sound(rows, nextId, connection, existing)
    requires Midway(a, rows, nextId, connection, entries, PlanOf(rows, existing, entries, overwrite), |entries|)
    requires p in a.rows && q in a.rows && p != q && a.rows[p].connection == connection
             && a.rows[q].connection == connection
    ensures Lower(a.rows[p].name) != Lower(a.rows[q].name)
  {
    var i := WhoWrote(a, rows, nextId, connection, entries, PlanOf(rows, existing, entries, overwrite), p);
    var j := WhoWrote(a, rows, nextId, connection, entries, PlanOf(rows, existing, entries, overwrite), q);
    NamesApart(rows, nextId, connection, existing, entries, overwrite, a.rows[p].name, p, i, a.rows[q].name, q, j);
  }

  // A name either stands in an untouched row of the connection or was written from the file.
  predicate NameOrigin(rows: Rows, connection: nat, entries: seq<Entry>, actions: seq<Action>, name: string, id: nat,
                       who: Option<nat>)
    requires |entries| == |actions|
  {
    match who
    case None => id in rows && rows[id].connection == connection && rows[id].name == name
                 && forall i :: 0 <= i < |entries| ==> actions[i] != Update(id)
    case Some(i) => i < |entries| && actions[i].Writes() && entries[i].name == name
  }

  lemma {:induction false} NamesApart(rows: Rows, nextId: nat, connection: nat, existing: map<string, nat>,
                                      entries: seq<Entry>, overwrite: bool, name: string, p: nat, i: Option<nat>,
                                      other: string, q: nat, j: Option<nat>)
    requires Sound(rows, nextId, connection, existing)
    requires NameOrigin(rows, connection, entries, PlanOf(rows, existing, entries, overwrite), name, p, i)
    requires NameOrigin(rows, connection, entries, PlanOf(rows, existing, entries, overwrite), other, q, j)
    requires p != q && (i.Some? && j.Some? ==> i != j)
    ensures Lower(name) != Lower(other)
  {
    if i.None? && j.Some? {
      UntouchedVersusWritten(rows, nextId, connection, existing, entries, overwrite, p, j.value);
    } else if i.Some? && j.None? {
      UntouchedVersusWritten(rows, nextId, connection, existing, entries, overwrite, q, i.value);
    } else if i.Some? && j.Some? {
      if i.value < j.value {
        PlannedWritesAreDistinct(entries, rows, existing, overwrite, i.value, j.value);
      } else {
        PlannedWritesAreDistinct(entries, rows, existing, overwrite, j.value, i.value);
      }
    }
  }

  lemma {:induction false} UntouchedVersusWritten(rows: Rows, nextId: nat, connection: nat, existing: map<string, nat>,
                                                  entries: seq<Entry>, overwrite: bool, id: nat, i: nat)
    requires Sound(rows, nextId, connection, existing) && i < |entries|
    requires PlanOf(rows, existing, entries, overwrite)[i].Writes()
    requires PlanOf(rows, existing, entries, overwrite)[i] != Update(id)
    requires id in rows && rows[id].connection == connection
    ensures Lower(rows[id].name) != Key(entries[i])
  {
    WriteTarget(rows, nextId, connection, existing, entries, overwrite, i);
    assert Lower(rows[id].name) in existing;
  }

  // For any file: planning and applying keeps the connection's names distinct in any case,
  // refuses nothing, adds exactly the planned new tags, and leaves other connections alone.
  lemma {:induction false} ImportKeepsNamesDistinct(rows: Rows, nextId: nat, connection: nat,
                                                    existing: map<string, nat>, entries: seq<Entry>, overwrite: bool)
    requires Sound(rows, nextId, connection, existing)
    ensures var actions := PlanOf(rows, existing, entries, overwrite);
            var a := Apply(rows, nextId, connection, entries, actions, |entries|);
            && a.actions == actions
            && UniqueAnyCase(a.rows, connection)
            && |a.rows| == |rows| + CountCreates(actions)
            && (forall id :: id in rows && rows[id].connection != connection ==> id in a.rows && a.rows[id] == rows[id])
  {
    var actions := PlanOf(rows, existing, entries, overwrite);
    var a := Apply(rows, nextId, connection, entries, actions, |entries|);
    ApplyIsMidway(rows, nextId, connection, existing, entries, overwrite, |entries|);
    assert actions[..|entries|] == actions;
    forall p, q | p in a.rows && q in a.rows && p != q && a.rows[p].connection == connection
        && a.rows[q].connection == connection
      ensures Lower(a.rows[p].name) != Lower(a.rows[q].name)
    {
      RowsStayApart(rows, nextId, connection, existing, entries, overwrite, a, p, q);
    }
    forall id | id in rows && rows[id].connection != connection
      ensures a.rows[id] == rows[id]
    {
      assert RowExplained(a, rows, nextId, connection, entries, actions, |entries|, id);
      if i :| 0 <= i < |entries| && actions[i].Writes() && WrittenId(nextId, actions, i) == id {
        WriteTarget(rows, nextId, connection, existing, entries, overwrite, i);
      }
    }
  }

  predicate DistinctKeys(entries: seq<Entry>) {
    forall i, j :: 0 <= i < j < |entries| ==> Key(entries[i]) != Key(entries[j])
  }

  // A row the plan leaves alone is what it was, before and after.
  lemma {:induction false} UntouchedRow(rows: Rows, nextId: nat, connection: nat, existing: map<string, nat>,
                                        entries: seq<Entry>, a: Applied, id: nat)
    requires Sound(rows, nextId, connection, existing)
    requires Midway(a, rows, nextId, connection, entries, PlanOf(rows, existing, entries, true), |entries|)
    requires id in rows && forall j :: 0 <= j < |entries| ==> PlanOf(rows, existing, entries, true)[j] != Update(id)
    ensures id in a.rows && a.rows[id] == rows[id]
  {
    var actions := PlanOf(rows, existing, entries, true);
    assert RowExplained(a, rows, nextId, connection, entries, actions, |entries|, id);
  }

  lemma {:induction false} SkippedAlone(rows: Rows, nextId: nat, connection: nat, existing: map<string, nat>,
                                        entries: seq<Entry>, i: nat)
    requires Sound(rows, nextId, connection, existing) && DistinctKeys(entries)
    requires i < |entries| && Key(entries[i]) in existing
    requires !PlanOf(rows, existing, entries, true)[i].Writes()
    ensures forall j :: 0 <= j < |entries| ==>
              PlanOf(rows, existing, entries, true)[j] != Update(existing[Key(entries[i])])
  {
    forall j | 0 <= j < |entries|
      ensures PlanOf(rows, existing, entries, true)[j] != Update(existing[Key(entries[i])])
    {
      WriteTarget(rows, nextId, connection, existing, entries, true, j);
      if j != i {
        assert Key(entries[j]) != Key(entries[i]);
      }
    }
  }

  // After an overwriting import every importable entry is in the table as the file has it.
  lemma {:induction false} ImportedAsTheFileHasIt(rows: Rows, nextId: nat, connection: nat, existing: map<string, nat>,
                                                  entries: seq<Entry>, i: nat) returns (id: nat)
    requires Sound(rows, nextId, connection, existing) && DistinctKeys(entries)
    requires i < |entries| && ValidEntry(entries[i])
    ensures var a := Apply(rows, nextId, connection, entries, PlanOf(rows, existing, entries, true), |entries|);
            && id in a.rows && a.rows[id].connection == connection
            && Lower(a.rows[id].name) == Key(entries[i]) && Unchanged(a.rows[id], entries[i])
  {
    var actions := PlanOf(rows, existing, entries, true);
    var a := Apply(rows, nextId, connection, entries, actions, |entries|);
    ApplyIsMidway(rows, nextId, connection, existing, entries, true, |entries|);
    if actions[i].Writes() {
      id := WrittenId(nextId, actions, i);
      assert a.rows[id] == TagOf(connection, entries[i]);
    } else {
      PlanAt(entries, rows, existing, true, i);
      ClaimedComeFromEarlier(entries, rows, existing, true, i);
      id := existing[Key(entries[i])];
      SkippedAlone(rows, nextId, connection, existing, entries, i);
      UntouchedRow(rows, nextId, connection, existing, entries, a, id);
    }
  }

  lemma {:induction false} ClaimedComeFromEarlier(entries: seq<Entry>, rows: Rows, existing: map<string, nat>,
                                                  overwrite: bool, n: nat)
    requires (forall k :: k in existing ==> existing[k] in rows) && n <= |entries|
    ensures forall k :: k in Plan(entries[..n], rows, existing, overwrite).claimed ==>
              exists i :: 0 <= i < n && Key(entries[i]) == k
    decreases n
  {
    if n > 0 {
      assert entries[..n][..n - 1] == entries[..n - 1];
      ClaimedComeFromEarlier(entries, rows, existing, overwrite, n - 1);
    }
  }

  // Importing the same file again with overwrite writes nothing.
  lemma {:induction false} ImportIsIdempotent(rows: Rows, nextId: nat, connection: nat, existing: map<string, nat>,
                                              entries: seq<Entry>, again: map<string, nat>)
    requires Sound(rows, nextId, connection, existing) && DistinctKeys(entries)
    requires var after := Apply(rows, nextId, connection, entries, PlanOf(rows, existing, entries, true), |entries|);
             IsIndex(again, after.rows, connection)
    ensures var after := Apply(rows, nextId, connection, entries, PlanOf(rows, existing, entries, true), |entries|);
            CountWrites(PlanOf(after.rows, again, entries, true)) == 0
  {
    var after := Apply(rows, nextId, connection, entries, PlanOf(rows, existing, entries, true), |entries|);
    var second := PlanOf(after.rows, again, entries, true);
    ImportKeepsNamesDistinct(rows, nextId, connection, existing, entries, true);
    forall i | 0 <= i < |entries|
      ensures !second[i].Writes()
    {
      PlanAt(entries, after.rows, again, true, i);
      if ValidEntry(entries[i]) {
        var id := ImportedAsTheFileHasIt(rows, nextId, connection, existing, entries, i);
      }
    }
    NoWritesCountZero(second);
  }

  lemma {:induction false} NoWritesCountZero(actions: seq<Action>)
    requires forall i :: 0 <= i < |actions| ==> !actions[i].Writes()
    ensures CountWrites(actions) == 0
    decreases |actions|
  {
    if actions != [] {
      NoWritesCountZero(actions[..|actions| - 1]);
    }
  }
}
