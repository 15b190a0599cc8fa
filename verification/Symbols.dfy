// Importable symbols: from the rows of a symbol table, and from a computed data-block layout.
module Symbols {
  import opened Wrappers
  import opened Decoding
  import opened S7Types
  import opened Decimal
  import opened Addressing
  import opened Names
  import opened DbLayout
  import opened LayoutLaws
  import opened MemberAddresses

  const MAX_ROWS: nat := 100_000

  datatype Entry = Entry(
    name: string, addressText: string, area: Area, db: nat, byteOffset: nat, bitOffset: nat,
    dataType: DataType, length: nat, comment: string, originalName: string)

  datatype SkipReason =
    EmptyRow | NoAddress | NotAnAddress | NotMirrored | TypeUnreadable(reason: Reason) | BitNeedsBool | BoolNeedsBit

  datatype Skipped = Skipped(name: string, addressText: string, reason: SkipReason)

  // One raw row; the type column is None when it is blank.
  datatype Row = Row(name: string, address: string, declared: Option<Declared>, comment: string)

  // ---------------------------------------------------------------- what a row means

  datatype Resolution = Unusable(reason: SkipReason) | Usable(address: ParsedAddress, dataType: DataType, length: nat)

  function Resolve(row: Row): Resolution {
    if Strip(row.address) == "" then Unusable(if Strip(row.name) == "" then EmptyRow else NoAddress)
    else
      match ParseAddress(Strip(row.address))
      case AddressError => Unusable(NotAnAddress)
      case Parsed(address) =>
        if !address.Supported() then Unusable(NotMirrored)
        else
          var info := if row.declared.Some? then MapDeclaredType(row.declared.value)
                      else Readable(address.implied, 0, 0, 1);
          if !info.Supported() then Unusable(TypeUnreadable(info.reason))
          else if address.IsBit() && info.dataType.value != BOOL then Unusable(BitNeedsBool)
          else if !address.IsBit() && info.dataType.value == BOOL then Unusable(BoolNeedsBit)
          else Usable(address, info.dataType.value, info.length)
  }

  // A usable row agrees with its address text, is a BOOL exactly when it addresses a bit, and has
  // a length its type can be decoded with.
  lemma {:induction false} UsableRowsAreConsistent(row: Row)
    requires Resolve(row).Usable?
    ensures var r := Resolve(row);
            && ParseAddress(Strip(row.address)) == Parsed(r.address) && r.address.Supported()
            && (r.dataType == BOOL <==> r.address.IsBit())
            && SizeOf(r.dataType, r.length).Ok?
            && (r.dataType != BOOL ==> r.address.bitOffset == 0)
  {
    ParsingYieldsPrintable(Strip(row.address));
    if row.declared.Some? {
      TypeTableAgreesWithDecoder(row.declared.value);
    }
  }

  predicate DistinctNames(entries: seq<Entry>) {
    forall i, j :: 0 <= i < j < |entries| ==> Lower(entries[i].name) != Lower(entries[j].name)
  }

  predicate ValidNames(entries: seq<Entry>) {
    forall i :: 0 <= i < |entries| ==> NamePattern(entries[i].name)
  }

  // The names given so far: pairwise distinct in any case, and all recorded as taken.
  predicate NamesGiven(entries: seq<Entry>, taken: set<string>) {
    && DistinctNames(entries)
    && |taken| <= |entries|
    && forall i :: 0 <= i < |entries| ==> Lower(entries[i].name) in taken
  }

  lemma {:induction false} OneMoreName(entries: seq<Entry>, taken: set<string>, e: Entry)
    requires NamesGiven(entries, taken) && Lower(e.name) !in taken
    ensures NamesGiven(entries + [e], taken + {Lower(e.name)})
  {
  }

  // The entry a usable row becomes, whatever name it is given.
  predicate FromRow(e: Entry, row: Row) {
    var r := Resolve(row);
    && r.Usable?
    && e.addressText == Strip(row.address) && e.area == r.address.area && e.db == r.address.db
    && e.byteOffset == r.address.byteOffset && e.bitOffset == r.address.bitOffset
    && e.dataType == r.dataType && e.length == r.length
    && e.comment == Strip(row.comment) && e.originalName == Strip(row.name)
  }

  predicate EntriesFor(entries: seq<Entry>, rows: seq<Row>) {
    |entries| == |rows| && forall i :: 0 <= i < |rows| ==> FromRow(entries[i], rows[i])
  }

  function UsableRows(rows: seq<Row>): seq<Row> {
    if rows == [] then []
    else
      var front := UsableRows(rows[..|rows| - 1]);
      var last := rows[|rows| - 1];
      if Resolve(last).Usable? then front + [last] else front
  }

  function UnusableRows(rows: seq<Row>): seq<Skipped> {
    if rows == [] then []
    else
      var front := UnusableRows(rows[..|rows| - 1]);
      var last := rows[|rows| - 1];
      match Resolve(last)
      case Usable(_, _, _) => front
      case Unusable(reason) => front + [Skipped(Strip(last.name), Strip(last.address), reason)]
  }

  method FreshName(display: string, taken: set<string>) returns (name: string, nowTaken: set<string>)
    ensures Lower(name) !in taken && nowTaken == taken + {Lower(name)}
    ensures |taken| < 1_000_000 ==> NamePattern(name)
  {
    SevenDigits();
    name, nowTaken := SanitizeName(display, taken);
  }

  method BuildEntry(row: Row, taken: set<string>) returns (entry: Option<Entry>, nowTaken: set<string>)
    ensures entry.Some? <==> Resolve(row).Usable?
    ensures entry.None? ==> nowTaken == taken
    ensures entry.Some? ==>
              && FromRow(entry.value, row)
              && Lower(entry.value.name) !in taken && nowTaken == taken + {Lower(entry.value.name)}
              && (|taken| < 1_000_000 ==> NamePattern(entry.value.name))
  {
    match Resolve(row)
    case Unusable(_) => return None, taken;
    case Usable(address, dataType, length) =>
      var rawName := Strip(row.name);
      var name: string;
      name, nowTaken := FreshName(if rawName != "" then rawName else Canonical(address), taken);
      entry := Some(Entry(name, Strip(row.address), address.area, address.db, address.byteOffset, address.bitOffset,
                          dataType, length, Strip(row.comment), rawName));
  }

  lemma {:induction false} SevenDigits()
    ensures Pow10(7) > 1_000_002
  {
    assert Pow10(7) == 10 * Pow10(6) == 100 * Pow10(5) == 1000 * Pow10(4) == 10000 * Pow10(3) == 100000 * Pow10(2);
    assert Pow10(2) == 10 * Pow10(1) == 100 * Pow10(0);
  }

  lemma {:induction false} OneMoreRow(rows: seq<Row>, n: nat)
    requires n < |rows|
    ensures var row := rows[n];
            && UsableRows(rows[..n + 1]) == UsableRows(rows[..n]) + (if Resolve(row).Usable? then [row] else [])
            && UnusableRows(rows[..n + 1]) == UnusableRows(rows[..n])
                 + (if Resolve(row).Usable? then [] else [Skipped(Strip(row.name), Strip(row.address),
                                                                  Resolve(row).reason)])
  {
    assert rows[..n + 1][..n] == rows[..n] && rows[..n + 1][n] == rows[n];
  }

  // The rows so far are all accounted for, under valid and distinct names.
  predicate Collected(entries: seq<Entry>, skipped: seq<Skipped>, taken: set<string>, rows: seq<Row>) {
    && EntriesFor(entries, UsableRows(rows)) && skipped == UnusableRows(rows)
    && NamesGiven(entries, taken) && ValidNames(entries) && |entries| <= |rows|
  }

  lemma {:induction false} CollectedUsable(entries: seq<Entry>, skipped: seq<Skipped>, taken: set<string>,
                                           rows: seq<Row>, n: nat, entry: Entry)
    requires n < |rows| && Collected(entries, skipped, taken, rows[..n])
    requires FromRow(entry, rows[n]) && Lower(entry.name) !in taken && NamePattern(entry.name)
    ensures Collected(entries + [entry], skipped, taken + {Lower(entry.name)}, rows[..n + 1])
  {
    OneMoreRow(rows, n);
    OneMoreName(entries, taken, entry);
  }

  lemma {:induction false} CollectedUnusable(entries: seq<Entry>, skipped: seq<Skipped>, taken: set<string>,
                                             rows: seq<Row>, n: nat)
    requires n < |rows| && Collected(entries, skipped, taken, rows[..n]) && Resolve(rows[n]).Unusable?
    ensures Collected(entries, skipped + [Skipped(Strip(rows[n].name), Strip(rows[n].address),
                                                  Resolve(rows[n]).reason)], taken, rows[..n + 1])
  {
    OneMoreRow(rows, n);
  }

  method CollectRow(entries: seq<Entry>, skipped: seq<Skipped>, taken: set<string>, rows: seq<Row>, n: nat)
    returns (more: seq<Entry>, moreSkipped: seq<Skipped>, nowTaken: set<string>)
    requires n < |rows| <= MAX_ROWS && Collected(entries, skipped, taken, rows[..n])
    ensures Collected(more, moreSkipped, nowTaken, rows[..n + 1])
  {
    var row := rows[n];
    var entry: Option<Entry>;
    entry, nowTaken := BuildEntry(row, taken);
    if entry.Some? {
      CollectedUsable(entries, skipped, taken, rows, n, entry.value);
      more, moreSkipped := entries + [entry.value], skipped;
    } else {
      CollectedUnusable(entries, skipped, taken, rows, n);
      more := entries;
      moreSkipped := skipped + [Skipped(Strip(row.name), Strip(row.address), Resolve(row).reason)];
    }
  }

  // Every usable row of the first MAX_ROWS becomes an entry, in order, under a valid name no
  // other entry has in any case; every other row is reported.
  method Collect(rows: seq<Row>) returns (entries: seq<Entry>, skipped: seq<Skipped>, cut: bool)
    ensures var used := if |rows| <= MAX_ROWS then rows else rows[..MAX_ROWS];
            EntriesFor(entries, UsableRows(used)) && skipped == UnusableRows(used)
    ensures DistinctNames(entries) && ValidNames(entries)
    ensures cut <==> |rows| > MAX_ROWS
  {
    var used := if |rows| <= MAX_ROWS then rows else rows[..MAX_ROWS];
    cut := |rows| > MAX_ROWS;
    var taken: set<string> := {};
    entries, skipped := [], [];
    assert used[..0] == [];
    for n := 0 to |used|
      invariant Collected(entries, skipped, taken, used[..n])
    {
      entries, skipped, taken := CollectRow(entries, skipped, taken, used, n);
    }
    assert used[..|used|] == used;
  }

  // ---------------------------------------------------------------- from a data-block layout

  datatype SkippedMember = SkippedMember(name: string, addressText: string, reason: Reason)

  predicate FromMember(e: Entry, m: DbMember, db: nat, prefix: string) {
    && m.Supported()
    && e.addressText == MemberAddress(m, db) && e.area == DbArea && e.db == db
    && e.byteOffset == m.byteOffset && e.bitOffset == m.bitOffset
    && e.dataType == m.dataType.value && e.length == m.length
    && e.comment == m.comment && e.originalName == prefix + m.path
  }

  predicate EntriesForMembers(entries: seq<Entry>, ms: seq<DbMember>, db: nat, prefix: string) {
    |entries| == |ms| && forall i :: 0 <= i < |ms| ==> FromMember(entries[i], ms[i], db, prefix)
  }

  function ReadableMembers(ms: seq<DbMember>): seq<DbMember> {
    if ms == [] then []
    else
      var front := ReadableMembers(ms[..|ms| - 1]);
      if ms[|ms| - 1].Supported() then front + [ms[|ms| - 1]] else front
  }

  function UnreadableMembers(ms: seq<DbMember>, db: nat, prefix: string): seq<SkippedMember> {
    if ms == [] then []
    else
      var front := UnreadableMembers(ms[..|ms| - 1], db, prefix);
      var m := ms[|ms| - 1];
      if m.Supported() then front else front + [SkippedMember(prefix + m.path, MemberAddress(m, db), m.reason)]
  }

  lemma {:induction false} MembersSplit(ms: seq<DbMember>, n: nat, db: nat, prefix: string)
    requires n < |ms|
    ensures ReadableMembers(ms[..n + 1]) == ReadableMembers(ms[..n]) + if ms[n].Supported() then [ms[n]] else []
    ensures UnreadableMembers(ms[..n + 1], db, prefix) == UnreadableMembers(ms[..n], db, prefix) +
            if ms[n].Supported() then [] else [SkippedMember(prefix + ms[n].path, MemberAddress(ms[n], db),
                                                             ms[n].reason)]
  {
    assert ms[..n + 1][..n] == ms[..n];
  }

  method MemberEntry(m: DbMember, db: nat, prefix: string, taken: set<string>)
    returns (entry: Entry, nowTaken: set<string>)
    requires m.Supported()
    ensures FromMember(entry, m, db, prefix)
    ensures Lower(entry.name) !in taken && nowTaken == taken + {Lower(entry.name)}
    ensures |taken| < 1_000_000 ==> NamePattern(entry.name)
  {
    var display := if prefix != "" then prefix + m.path else m.path;
    assert display == prefix + m.path;
    var name: string;
    name, nowTaken := FreshName(display, taken);
    entry := Entry(name, MemberAddress(m, db), DbArea, db, m.byteOffset, m.bitOffset,
                   m.dataType.value, m.length, m.comment, display);
  }

  // The members so far are all accounted for, under distinct names.
  predicate Laid(entries: seq<Entry>, skipped: seq<SkippedMember>, taken: set<string>, ms: seq<DbMember>, db: nat,
                 prefix: string) {
    && EntriesForMembers(entries, ReadableMembers(ms), db, prefix) && skipped == UnreadableMembers(ms, db, prefix)
    && NamesGiven(entries, taken) && |entries| <= |ms|
  }

  lemma {:induction false} LaidReadable(entries: seq<Entry>, skipped: seq<SkippedMember>, taken: set<string>,
                                        ms: seq<DbMember>, n: nat, db: nat, prefix: string, entry: Entry)
    requires n < |ms| && Laid(entries, skipped, taken, ms[..n], db, prefix)
    requires FromMember(entry, ms[n], db, prefix) && Lower(entry.name) !in taken
    ensures Laid(entries + [entry], skipped, taken + {Lower(entry.name)}, ms[..n + 1], db, prefix)
  {
    MembersSplit(ms, n, db, prefix);
    OneMoreName(entries, taken, entry);
  }

  lemma {:induction false} LaidUnreadable(entries: seq<Entry>, skipped: seq<SkippedMember>, taken: set<string>,
                                          ms: seq<DbMember>, n: nat, db: nat, prefix: string)
    requires n < |ms| && Laid(entries, skipped, taken, ms[..n], db, prefix) && !ms[n].Supported()
    ensures Laid(entries, skipped + [SkippedMember(prefix + ms[n].path, MemberAddress(ms[n], db), ms[n].reason)], taken,
                 ms[..n + 1], db, prefix)
  {
    MembersSplit(ms, n, db, prefix);
  }

  // Without a block number nothing can be addressed and nothing is produced. Otherwise every
  // readable member becomes an entry, in order, and every other member is reported.
  method LayoutToSymbols(ms: seq<DbMember>, db: nat, prefix: string)
    returns (entries: seq<Entry>, skipped: seq<SkippedMember>)
    ensures db == 0 ==> entries == [] && skipped == []
    ensures db != 0 ==>
              EntriesForMembers(entries, ReadableMembers(ms), db, prefix)
                  && skipped == UnreadableMembers(ms, db, prefix)
    ensures DistinctNames(entries)
    ensures |ms| <= MAX_MEMBERS ==> ValidNames(entries)
  {
    var taken: set<string> := {};
    entries, skipped := [], [];
    if db == 0 {
      return;
    }
    assert ms[..0] == [];
    for n := 0 to |ms|
      invariant Laid(entries, skipped, taken, ms[..n], db, prefix)
      invariant |ms| <= MAX_MEMBERS ==> ValidNames(entries)
    {
      var m := ms[n];
      if m.Supported() {
        var entry, nowTaken := MemberEntry(m, db, prefix, taken);
        LaidReadable(entries, skipped, taken, ms, n, db, prefix, entry);
        entries, taken := entries + [entry], nowTaken;
      } else {
        LaidUnreadable(entries, skipped, taken, ms, n, db, prefix);
        skipped := skipped + [SkippedMember(prefix + m.path, MemberAddress(m, db), m.reason)];
      }
    }
    assert ms[..|ms|] == ms;
  }

  // Entries of a computed block fit the caps by construction: their number is bounded, so every
  // name is valid, and every address text reads back to the entry's own place.
  lemma {:induction false} BlockEntriesAreAddressable(nodes: seq<MemberNode>, e: Entry, m: DbMember, db: nat,
                                                      prefix: string)
    requires m in BlockMembers(nodes) && FromMember(e, m, db, prefix)
    ensures |BlockMembers(nodes)| <= MAX_MEMBERS
    ensures SamePlace(ParseAddress(e.addressText), DbArea, e.db, e.byteOffset, e.bitOffset)
    ensures SizeOf(e.dataType, e.length).Ok? && e.byteOffset + SizeOf(e.dataType, e.length).value <= TotalBytes(nodes)
  {
    NothingDroppedIffFits(nodes, 0, 0, "", 0);
    WalkIsWellTyped(nodes, 0, 0, "", 0);
    MemberAddressParsesBack(m, db);
    BlockHasNoOverlap(nodes);
    var i :| 0 <= i < |BlockMembers(nodes)| && BlockMembers(nodes)[i] == m;
  }
}
