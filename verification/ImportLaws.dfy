// What an import does with each row of its file, and what it leaves alone.
module ImportLaws {
  import opened Wrappers
  import opened Bytes
  import opened Decoding
  import opened S7Types
  import opened Decimal
  import opened Addressing
  import opened Names
  import opened DbLayout
  import opened LayoutLaws
  import opened MemberAddresses
  import Listing
  import opened Symbols
  import opened TagImport

  // An importable row before row n that has the name, and takes it for this file: it is new to
  // the connection, or replaces a tag that differs from it.
  predicate TakenBefore(entries: seq<Entry>, rows: Rows, existing: map<string, nat>, overwrite: bool, n: nat,
                        key: string)
    requires n <= |entries| && forall k :: k in existing ==> existing[k] in rows
  {
    exists j :: 0 <= j < n && ValidEntry(entries[j]) && Key(entries[j]) == key
                && (key in existing ==> overwrite && !Unchanged(rows[existing[key]], entries[j]))
  }

  lemma {:induction false} TakenOneMore(entries: seq<Entry>, rows: Rows, existing: map<string, nat>, overwrite: bool,
                                        n: nat, key: string)
    requires n < |entries| && forall k :: k in existing ==> existing[k] in rows
    ensures TakenBefore(entries, rows, existing, overwrite, n + 1, key)
            <==> || TakenBefore(entries, rows, existing, overwrite, n, key)
                 || (ValidEntry(entries[n]) && Key(entries[n]) == key
                     && (key in existing ==> overwrite && !Unchanged(rows[existing[key]], entries[n])))
  {
  }

  lemma {:induction false} ClaimedIffTaken(entries: seq<Entry>, rows: Rows, existing: map<string, nat>,
                                           overwrite: bool, n: nat, key: string)
    requires n <= |entries| && forall k :: k in existing ==> existing[k] in rows
    ensures key in Plan(entries[..n], rows, existing, overwrite).claimed
            <==> TakenBefore(entries, rows, existing, overwrite, n, key)
    decreases n
  {
    if n > 0 {
      assert entries[..n][..n - 1] == entries[..n - 1];
      ClaimedIffTaken(entries, rows, existing, overwrite, n - 1, key);
      TakenOneMore(entries, rows, existing, overwrite, n - 1, key);
    }
  }

  // What becomes of row i. Without overwriting, a row whose name the connection has is skipped in
  // favour of that very tag; with it, the tag is replaced unless it is the same already.
  lemma {:induction false} PlanMeans(rows: Rows, existing: map<string, nat>, entries: seq<Entry>, overwrite: bool,
                                     i: nat)
    requires i < |entries| && forall k :: k in existing ==> existing[k] in rows
    ensures var e, action := entries[i], PlanOf(rows, existing, entries, overwrite)[i];
            var taken := TakenBefore(entries, rows, existing, overwrite, i, Key(e));
            && (action == RejectInvalid <==> !ValidEntry(e))
            && (action == RejectClaimed <==> ValidEntry(e) && taken)
            && (action == Create <==> ValidEntry(e) && !taken && Key(e) !in existing)
            && (ValidEntry(e) && !taken && Key(e) in existing ==>
                  var id := existing[Key(e)];
                  action == if overwrite && !Unchanged(rows[id], e) then Update(id) else Skip(id))
  {
    PlanAt(entries, rows, existing, overwrite, i);
    ClaimedIffTaken(entries, rows, existing, overwrite, i, Key(entries[i]));
  }

  // Without overwriting: a valid row whose name the connection has is skipped for that tag; any
  // other valid row is a new tag, the first of its name.
  lemma {:induction false} PlanWithoutOverwriting(rows: Rows, existing: map<string, nat>, entries: seq<Entry>, i: nat)
    requires i < |entries| && ValidEntry(entries[i]) && forall k :: k in existing ==> existing[k] in rows
    ensures var key, action := Key(entries[i]), PlanOf(rows, existing, entries, false)[i];
            && (key in existing ==> action == Skip(existing[key]))
            && (key !in existing ==>
                  if exists j :: 0 <= j < i && ValidEntry(entries[j]) && Key(entries[j]) == key
                  then action == RejectClaimed else action == Create)
  {
    PlanMeans(rows, existing, entries, false, i);
  }

  // Without overwriting every row that existed is still there, as it was.
  lemma {:induction false} NothingOverwrittenUnasked(rows: Rows, nextId: nat, connection: nat,
                                                     existing: map<string, nat>, entries: seq<Entry>, id: nat)
    requires Sound(rows, nextId, connection, existing) && id in rows
    ensures var a := Apply(rows, nextId, connection, entries, PlanOf(rows, existing, entries, false), |entries|);
            id in a.rows && a.rows[id] == rows[id]
  {
    var actions := PlanOf(rows, existing, entries, false);
    var a := Apply(rows, nextId, connection, entries, actions, |entries|);
    ApplyIsMidway(rows, nextId, connection, existing, entries, false, |entries|);
    forall i | 0 <= i < |entries|
      ensures !actions[i].Update?
    {
      PlanMeans(rows, existing, entries, false, i);
    }
    assert RowExplained(a, rows, nextId, connection, entries, actions, |entries|, id);
  }

  // After an import with overwriting, an importable row's tag is the row's own in every field - the
  // name at least in any case, and exactly when it was written.
  lemma {:induction false} ImportedFieldByField(rows: Rows, nextId: nat, connection: nat, existing: map<string, nat>,
                                                entries: seq<Entry>, i: nat) returns (id: nat)
    requires Sound(rows, nextId, connection, existing) && DistinctKeys(entries)
    requires i < |entries| && ValidEntry(entries[i])
    ensures var a := Apply(rows, nextId, connection, entries, PlanOf(rows, existing, entries, true), |entries|);
            var e, text := entries[i], Strip(entries[i].comment);
            && id in a.rows && Lower(a.rows[id].name) == Lower(e.name)
            && (id !in rows ==> a.rows[id].name == e.name)
            && a.rows[id] == Tag(connection, a.rows[id].name, e.area, e.db, e.byteOffset, e.bitOffset, e.dataType,
                                 e.length,
                                 if |text| <= 255 then text else text[..255])
  {
    id := ImportedAsTheFileHasIt(rows, nextId, connection, existing, entries, i);
    var actions := PlanOf(rows, existing, entries, true);
    var a := Apply(rows, nextId, connection, entries, actions, |entries|);
    ApplyIsMidway(rows, nextId, connection, existing, entries, true, |entries|);
    if id !in rows {
      assert RowExplained(a, rows, nextId, connection, entries, actions, |entries|, id);
      var j :| 0 <= j < |entries| && actions[j].Writes() && a.rows[id] == TagOf(connection, entries[j]);
      assert Key(entries[j]) == Key(entries[i]);
    }
  }

  // ---------------------------------------------------------------- what can be imported

  lemma {:induction false} StrippedNameIsValid(name: string)
    requires NamePattern(name)
    ensures NamePattern(Strip(name))
  {
    DropTrailingSpacesIsPrefix(name);
  }

  // Every entry of a computed block can be imported, but for blocks and offsets the tag table does
  // not take.
  lemma {:induction false} BlockEntriesAreImportableIff(nodes: seq<MemberNode>, e: Entry, m: DbMember, db: nat,
                                                        prefix: string)
    requires m in BlockMembers(nodes) && FromMember(e, m, db, prefix) && NamePattern(e.name)
    ensures ValidEntry(e) <==> 1 <= db <= 65535 && m.byteOffset <= 8 * 1024 * 1024
  {
    StrippedNameIsValid(e.name);
    WalkIsWellTyped(nodes, 0, 0, "", 0);
    Listing.WalkIsAsInTable(nodes, 0, 0, "", 0, m);
  }

  // A symbol table's row is usable exactly when its address is one of the mirrored areas, its type
  // column, if filled, names a readable type, and it is a BOOL exactly when it addresses a bit. The
  // type column wins; the width of the address speaks only where it is blank.
  lemma {:induction false} RowIsUsableIff(row: Row)
    ensures var text, r := Strip(row.address), Resolve(row);
            var parsed := ParseAddress(text);
            var readable := row.declared.Some? ==> MapDeclaredType(row.declared.value).Supported();
            && (r.Usable? <==>
                 && text != "" && parsed.Parsed? && parsed.address.Supported() && readable
                 && (parsed.address.IsBit() <==>
                      (if row.declared.Some? then MapDeclaredType(row.declared.value).dataType.value
                       else parsed.address.implied) == BOOL))
            && (r.Usable? ==> r.address == parsed.address)
            && (r.Usable? && row.declared.None? ==> r.dataType == parsed.address.implied && r.length == 1)
            && (r.Usable? && row.declared.Some? ==>
                  && r.dataType == MapDeclaredType(row.declared.value).dataType.value
                  && r.length == MapDeclaredType(row.declared.value).length)
  {
  }

  // Every entry of a symbol table can be imported, but for block numbers, offsets and bits the tag
  // table does not take.
  lemma {:induction false} RowEntriesAreImportableIff(row: Row, e: Entry)
    requires FromRow(e, row) && NamePattern(e.name)
    ensures ValidEntry(e) <==>
              && (e.area == DbArea ==> 1 <= e.db <= 65535)
              && e.byteOffset <= 8 * 1024 * 1024 && e.bitOffset <= 7
  {
    StrippedNameIsValid(e.name);
    UsableRowsAreConsistent(row);
    if row.declared.Some? {
      ReadableLengths(row.declared.value);
    }
  }

  lemma {:induction false} ReadableLengths(d: Declared)
    requires MapDeclaredType(d).Supported()
    ensures var info := MapDeclaredType(d);
            if info.dataType.value == STRING then 1 <= info.length <= 254 else info.length == 1
  {
    TypeTableAgreesWithDecoder(d);
  }
}
