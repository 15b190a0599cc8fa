# A verified model of the Snap7 gateway's core

The gateway reads the memory of Siemens PLCs and serves it again from a virtual S7 CPU. This
project models its two hardest parts in Dafny and proves what they are for. `dafny verify
dfyconfig.toml` checks everything.

**The data-block compiler.** An engineering export is parsed into a tree of declarations
(`DeclParser`, `DeclLoop`), a byte/bit cursor assigns offsets (`S7Types`, `DbLayout`), addresses
are printed and parsed (`Decimal`, `Addressing`, `MemberAddresses`), names are made valid and
distinct (`Names`, `Symbols`), and values are decoded and encoded at the offsets (`Decoding`). The
main results are in `LayoutLaws` (no overlap; the computed layout is the least one the S7 rules
allow, the rules being stated independently as constraints; a structure is its own block, moved),
`ArrayForm` (the closed form for array sizes against the walk) and `MemoryModel` (the members of
any declaration behave as independent variables over any run of writes). `TypeMeaning` says what a
declared type makes of its bytes, `Listing` what a layout lists and under which names,
`LayoutWarnings` which misplacements it warns of, `AddressMeaning` and `NameLaws` what address
texts and cleaned names are.

**The bridge.** Discovery writes area rows (`Areas`, `Discovery`), polls fill the store of newest
reads (`DataStore`), a tick decides and makes so what is published (`Sync`, `SyncTask`), and the
virtual CPU serves it from buffers that the Snap7 server keeps by reference (`VirtualPlc`, with
real aliased arrays; `ServedData` for runs of its operations). `Bridge` is the whole as a state
machine over operator, discovery, poll, clock and tick steps; `Gateway` shows that the live objects
perform every run of those steps. The main results are over all runs: where an exposure came from (`Bridge`),
and in `Staleness` which read the served bytes are from, how old it can be, and that a shrunk
area's shape is held; and, the other way round, that decisions take effect and what is due is
served (`Liveness`).

**Around them.** `TagImport` and `ImportLaws` (planning and applying a file of tags), `RateLimiter`
(the sliding window), `PlcClient` (chunked reads and size probing) and `Manager` (one worker per
enabled connection, reconciled in place).

Code that changes state step by step is modelled as methods on classes or as loops, each proved
against a function; the laws are lemmas about those functions. Positions in a data block are
counted in bits, `8 * byte + bit`.

Where the code differs from its own prose, the model follows the code and says so in a lemma:

- Arrays of byte-aligned elements are not rounded to an even length (s7types.py:191), although
  db_layout.py:17-18 says every array is: `ArrayForm.ArrayLengthIsEvenIff`.
- A second rescan at the new size turns SHRUNK into OK without an operator (discovery.py:181-236),
  so a shape is held only while the status stays SHRUNK:
  `Discovery.ShrunkSurvivesIffShrinkingAgain`.
- A refused login that waits exactly the returned time is refused again, because expiry is strict
  (auth/service.py:111-114): `RateLimiter.AcceptedIffWaitedLonger`.
- A member and the tag imported from it can show different addresses, for LREAL and STRING[2]
  (db_layout.py:83-94, db/models.py:259-270): `MemberAddresses.MemberAndTagAddressAgreeIff`.
- An area that grows past 8 MiB cannot be registered again, and a tick then leaves its old
  registration with its old bytes (server.py:219-223, sync.py:178-189):
  `Staleness.TickRefreshesIff`. Its next poll is refused (client.py:237-240) and the tick after that
  withdraws it; until then its bytes can be twice as old as those of other areas, but no older:
  `Staleness.OversizedIsWithdrawnOncePolled`, `Staleness.GrownAreaStalenessIsBounded`, and
  `Staleness.GrownAreaReachesTheBound` for a run that gets there.
- A stand-in size is promised to be flagged (s7types.py:138-140), but arrays, blank types and
  impossible STRING lengths are not (db_layout.py:217-231, 251-254):
  `LayoutWarnings.NoWarningsMeansKnownIff`.
- Slots are keyed by area only, registrations by connection too (server.py:242): results about the
  slot table carry the hypothesis that no two registered areas share a slot.
  `VirtualPlc.ImageKeptIffSlotFree` shows it is needed exactly, and
  `VirtualPlc.ClientReadsOtherConnection` what happens without.
- The extra step that exposes added rows under Mirror All (discovery.py:302-305) never finds
  anything to do, the row having been inserted exposed.

## Model

| member | source | states |
|---|---|---|
| `Decoding.ApplyBitSetsOneBit` | src/snap7_gateway/plc/decoding.py:237-244 | read-modify-write sets exactly the addressed bit and leaves the seven others |
| `Decoding.DecodeNeverFailsInBounds` | src/snap7_gateway/plc/decoding.py:131-190 | a span wide enough for the type decodes whatever bytes it holds, garbage STRING headers included |
| `Decoding.DecodeIsLocal` | src/snap7_gateway/plc/decoding.py:131-190 | two buffers that agree on a value's own span decode alike there: nothing outside the span is looked at |
| `Decoding.EncodeAcceptsExactlyRepresentable` | src/snap7_gateway/plc/decoding.py:193-234 | encode succeeds exactly on the values of the type's range, and then yields exactly size_of bytes |
| `Decoding.DecodeAfterEncode` | src/snap7_gateway/plc/decoding.py:131-234 | encoding any representable value of any type but BOOL anywhere in a buffer and decoding there yields the stored value |
| `Decoding.StoredUnchangedIff` | src/snap7_gateway/plc/decoding.py:193-234 | the stored value is the written one exactly when its text is Latin-1 and no longer than declared |
| `TypeMeaning.BlockMembersMeanWhatTheyDeclare` | src/snap7_gateway/plc/s7types.py:75-180 | any member of any computed block reads exactly what its declared type makes of the bytes at its place: INT, DINT and TIME their two's complement, the other integers their unsigned number, first byte highest, REAL and LREAL their raw pattern, CHAR a character, STRING the clamped text, BOOL its binary digit, anything else nothing |
| `TypeMeaning.BlockMembersHoldWhatTheyDeclare` | src/snap7_gateway/plc/decoding.py:193-244 | it can be written exactly the values its declared type holds, and reads them back, characters outside Latin-1 as question marks and text cut to the declared length |
| `TypeMeaning.OccupiesItsWidth` | src/snap7_gateway/plc/s7types.py:75-180 | outside arrays every declared type takes its S7 width |
| `TypeMeaning.BitIsBinaryDigit` | src/snap7_gateway/plc/decoding.py:150-156 | bit k of a byte is its binary digit of weight 2^k |
| `S7Types.TypeTableAgreesWithDecoder` | src/snap7_gateway/plc/s7types.py:75-191 | a supported declaration occupies exactly the width decode reads, is packed as a bit exactly when it is a BOOL; nothing occupies less than a byte |
| `S7Types.WiderThanAByteIsWordAligned` | src/snap7_gateway/plc/s7types.py:75-180 | outside arrays, exactly the types wider than a byte start on words |
| `S7Types.RoundUpIsLeastMultiple` | src/snap7_gateway/plc/s7types.py:194-198 | rounding up gives the least multiple not below the value, for any multiple |
| `DbLayout.Cursor.CloseByte` | src/snap7_gateway/plc/db_layout.py:133-137 | the cursor moves to the next byte boundary, unless on one |
| `DbLayout.Cursor.Align` | src/snap7_gateway/plc/db_layout.py:139-142 | then to an even byte when the alignment is at least 2 |
| `DbLayout.Cursor.TakeBit` | src/snap7_gateway/plc/db_layout.py:144-150 | yields the bit at the cursor and moves one bit on, over byte ends |
| `DbLayout.Cursor.TakeBytes` | src/snap7_gateway/plc/db_layout.py:152-156 | yields the aligned byte offset and moves past the bytes |
| `DbLayout.Layout.PlaceLeaf` | src/snap7_gateway/plc/db_layout.py:214-269 | one member: appended at its aligned position; its warning when its type is unknown |
| `DbLayout.Layout.PlaceStruct` | src/snap7_gateway/plc/db_layout.py:191-212 | a structure: listed before its members, its size patched in once they are placed and the end padded |
| `DbLayout.Layout.WalkInto` | src/snap7_gateway/plc/db_layout.py:173-269 | the cursor loop, caps and warnings included, computes the recursive `Walk` |
| `DbLayout.ComputeLayout` | src/snap7_gateway/plc/db_layout.py:159-170 | members, even length and warnings of a whole block |
| `LayoutLaws.LeafIsPlacedGreedily` | src/snap7_gateway/plc/db_layout.py:214-269 | a member starts at the least admissible position: on its boundary, at most 15 padding bits on |
| `LayoutLaws.WalkIsLaminar` | src/snap7_gateway/plc/db_layout.py:173-269 | at any nesting and with or without the caps hit, a later member lies after an earlier one or inside it, and inside the walked range |
| `LayoutLaws.BlockHasNoOverlap` | src/snap7_gateway/plc/db_layout.py:159-269 | whatever is listed after a leaf member lies after it, and everything lies in the even block length |
| `LayoutLaws.WalkIsWellTyped` | src/snap7_gateway/plc/db_layout.py:214-269 | every readable member carries the width and bit position its type decodes with |
| `LayoutLaws.NothingDroppedIffFits` | src/snap7_gateway/plc/db_layout.py:176-187 | all members are listed exactly when nesting and number stay within the caps; never more than the cap |
| `LayoutLaws.WalkIsLegal` | src/snap7_gateway/plc/db_layout.py:173-269 | the computed placement obeys the S7 rules stated as constraints, nested structures included |
| `LayoutLaws.BlockIsTheLeastLegalLayout` | src/snap7_gateway/plc/db_layout.py:159-269 | and no placement obeying them starts or ends any member earlier, nor has a smaller even length |
| `LayoutLaws.StructIsItsOwnBlock` | src/snap7_gateway/plc/db_layout.py:191-212 | a structure anywhere is its children's own block shifted to its even start; its size is that block's length |
| `LayoutLaws.MovedWalk` | src/snap7_gateway/plc/db_layout.py:173-269 | offsets depend on the starting word only, at any depth and under any prefix |
| `LayoutLaws.AppendingMovesNothing` | src/snap7_gateway/plc/db_layout.py:173-269 | declaring more members never moves or changes an earlier one, caps or not |
| `LayoutLaws.PrefixOnlyRenames` | src/snap7_gateway/plc/db_layout.py:189-212 | walking under a prefix changes paths only, by that prefix and a dot |
| `Listing.WalkListsInOrder` | src/snap7_gateway/plc/db_layout.py:173-269 | with the caps not hit exactly the declared members are listed, in declaration order, each under its full dotted path, with its declared type and its comment |
| `LayoutWarnings.WalkWarns` | src/snap7_gateway/plc/db_layout.py:214-269 | of what it lists, a layout warns of exactly the members with a stand-in size that do not pass silently |
| `LayoutWarnings.NoWarningsMeansKnownIff` | src/snap7_gateway/plc/db_layout.py:217-262 | a block without warnings has no stand-in size exactly when it holds no array of an unknown or impossible type, nothing else beginning with ARRAY that is not understood, no blank type and no STRING of an impossible length |
| `LayoutWarnings.TwoDimensionsPassSilently` | src/snap7_gateway/plc/db_layout.py:217-231 | a two-dimensional array is laid out as one byte without a warning |
| `ArrayForm.ArraySizeIsTheWalk` | src/snap7_gateway/plc/s7types.py:183-191 | the closed form is the walk of that many members: before the final even rounding for byte-aligned elements, after it otherwise |
| `ArrayForm.NestedArrayAgreesIff` | src/snap7_gateway/plc/s7types.py:160-191 | for arrays of arrays it agrees with the walk exactly unless the inner array is odd and repeated |
| `ArrayForm.ArrayLengthIsEvenIff` | src/snap7_gateway/plc/s7types.py:183-191 | an array's length is even exactly unless byte-aligned elements make up an odd number of bytes |
| `ArrayForm.ThreeByteArrayStaysOdd` | src/snap7_gateway/plc/db_layout.py:17-18 | the documented rounding of every array to even bytes does not hold: three bytes stay three |
| `MemoryModel.EveryMemberDecodes` | src/snap7_gateway/plc/decoding.py:131-190 | every supported member of a computed block decodes on any buffer of the block's length |
| `MemoryModel.WriteThenReadSame` | src/snap7_gateway/plc/decoding.py:131-244 | writing a member and reading it yields the stored value |
| `MemoryModel.WriteThenReadOther` | src/snap7_gateway/plc/decoding.py:193-244 | and leaves every member that lies apart as it was |
| `MemoryModel.MembersAreIndependentVariables` | src/snap7_gateway/plc/db_layout.py:159-269 | for any declaration and any run of writes each member reads back the last value written to it, or what it held at the start |
| `DeclParser.ParsingUndoesPrinting` | src/snap7_gateway/plc/db_layout.py:450-480 | flattening a member forest to lines and running the stack loop rebuilds it |
| `DeclParser.PrintingWhatWasParsed` | src/snap7_gateway/plc/db_layout.py:450-480 | for any lines: the parsed forest can be printed, and parses back to itself |
| `DeclParser.TrailingEndsDoNotMatter` | src/snap7_gateway/plc/db_layout.py:450-480 | END_STRUCTs missing or surplus at the end change nothing |
| `DeclParser.SurplusEndIsIgnored` | src/snap7_gateway/plc/db_layout.py:462-470 | an END_STRUCT met with no structure open is ignored, anywhere |
| `DeclParser.EmptyLinesDoNotMatter` | src/snap7_gateway/plc/db_layout.py:455-470 | a blank line, a comment, a line that is no declaration or one without a name changes nothing wherever it stands, inside a structure too |
| `DeclParser.ParsingUndoesPrintingWithGaps` | src/snap7_gateway/plc/db_layout.py:450-480 | however a forest's lines are interleaved with such lines, they parse to it |
| `DeclLoop.ParseDeclarations` | src/snap7_gateway/plc/db_layout.py:450-480 | the loop over aliased member lists builds that forest; `pending_struct` stays one shorter than `stack`, so no pop fails |
| `Addressing.ParsingYieldsPrintable` | src/snap7_gateway/plc/addressing.py:125-214 | what parsing can yield, by area |
| `Addressing.CanonicalParsesBack` | src/snap7_gateway/plc/addressing.py:93-214 | every such address prints to a text that parses back to it, timers, counters and blocks included |
| `Addressing.CanonicalisationIsFaithful` | src/snap7_gateway/plc/addressing.py:53-214 | for any text in any accepted spelling, its canonical form reads the same |
| `Addressing.GermanLettersReadAlike` | src/snap7_gateway/plc/addressing.py:34-57 | whatever follows, E reads as I, A as Q and Z as C |
| `AddressMeaning.CaseDoesNotMatter` | src/snap7_gateway/plc/addressing.py:53-67 | texts that differ in case only are the same address, or both none |
| `AddressMeaning.SimpleLettersMean` | src/snap7_gateway/plc/addressing.py:34-55 | I, Q and M are inputs, outputs and merkers, B, W and D are one, two and four bytes, at the printed offset |
| `AddressMeaning.SimpleBitsMean` | src/snap7_gateway/plc/addressing.py:140-214 | without a width letter it is a bit, numbered up to 7 |
| `AddressMeaning.DbLettersMean` | src/snap7_gateway/plc/addressing.py:60-66 | and so in data blocks, with X for a bit |
| `MemberAddresses.MemberAddressParsesBack` | src/snap7_gateway/plc/db_layout.py:83-94 | a supported member's printed address parses to its own byte and bit; an unsupported one's never parses |
| `MemberAddresses.BlockAddressesParseBack` | src/snap7_gateway/plc/db_layout.py:83-94 | so for every member of every computed block |
| `MemberAddresses.TagAddressParsesBack` | src/snap7_gateway/db/models.py:259-270 | a valid tag's printed address parses back to its area, block, byte and bit |
| `AddressMeaning.MemberAddressNamesItsWidth` | src/snap7_gateway/plc/db_layout.py:83-94 | a supported member's address names a bit for a BOOL, a word for two bytes, a double word for four, else a byte |
| `MemberAddresses.MemberAndTagAddressAgreeIff` | src/snap7_gateway/db/models.py:259-270 | a member and the tag made of it print the same address exactly unless it is an LREAL or a STRING of two characters |
| `MemberAddresses.LongRealsPrintTwoAddresses` | src/snap7_gateway/db/models.py:259-270 | an LREAL at byte 0 of DB1 is DB1.DBB0 as a member and DB1.DBD0 as a tag |
| `Names.CleanNameIsValid` | src/snap7_gateway/plc/symbols.py:139-156 | the cleaned name matches the name pattern, whatever the raw text |
| `NameLaws.CleaningReplacesOnly` | src/snap7_gateway/plc/symbols.py:148-155 | a name that starts with a letter or digit and ends in a character that can stay keeps its length and all allowed characters; the others become underscores |
| `NameLaws.CleaningChangesNothingIff` | src/snap7_gateway/plc/symbols.py:148-155 | cleaning leaves a name as it is exactly when the tag table accepts it, it does not end in a space and has no three underscores in a row |
| `NameLaws.CleaningTwice` | src/snap7_gateway/plc/symbols.py:148-155 | cleaning a cleaned name changes nothing |
| `NameLaws.SameInAnyCaseIff` | src/snap7_gateway/plc/symbols.py:157-162 | names are the same in any case exactly when each character is the other's, or its capital or small letter |
| `Names.CandidatesDiffer` | src/snap7_gateway/plc/symbols.py:157-163 | numbered candidates are pairwise distinct in any case, truncation included |
| `Names.RefusalsAreBounded` | src/snap7_gateway/plc/symbols.py:157-163 | so no more candidates can be refused than names are taken |
| `Names.SanitizeName` | src/snap7_gateway/plc/symbols.py:139-163 | the loop ends with the first free candidate, records it, and keeps the name valid below 10^62 taken names |
| `Symbols.UsableRowsAreConsistent` | src/snap7_gateway/plc/symbols.py:169-239 | a usable row agrees with its address, is a BOOL exactly when it addresses a bit, and can be decoded |
| `ImportLaws.RowIsUsableIff` | src/snap7_gateway/plc/symbols.py:169-222 | a row is usable exactly when its address is mirrored, its type column, if filled, is readable, and it is a BOOL exactly when it addresses a bit; the type column wins over the address |
| `Symbols.BuildEntry` | src/snap7_gateway/plc/symbols.py:169-239 | a usable row becomes an entry that carries it, under a free name; an unusable one takes no name |
| `Symbols.Collect` | src/snap7_gateway/plc/symbols.py:242-256 | every usable row among the first 100000 becomes an entry in order, the others are reported; names are valid and distinct in any case |
| `Symbols.LayoutToSymbols` | src/snap7_gateway/plc/db_layout.py:505-548 | every readable member becomes an entry at its own place, the others are reported; names are distinct in any case |
| `Symbols.BlockEntriesAreAddressable` | src/snap7_gateway/plc/db_layout.py:505-548 | the entries of a computed block parse to and lie at their members' places inside the block |
| `ImportLaws.BlockEntriesAreImportableIff` | src/snap7_gateway/core/validation.py:221-272 | the tag table takes every entry of a computed block but for block numbers outside 1..65535 and offsets above 8 MiB |
| `ImportLaws.RowEntriesAreImportableIff` | src/snap7_gateway/core/validation.py:221-272 | and every entry of a symbol table but for those and bits above 7 |
| `TagImport.TagTable.CreateTag` | src/snap7_gateway/db/store.py:475-489 | refused exactly when the connection has a tag of that very name |
| `TagImport.TagTable.UpdateTag` | src/snap7_gateway/db/store.py:491-500 | keeps the row's connection, leaves a missing row missing, refuses another row's name |
| `TagImport.PlanImport` | src/snap7_gateway/core/tag_import.py:100-185 | the planning loop computes `Plan` over an index of the connection's names |
| `TagImport.PlannedWritesAreDistinct` | src/snap7_gateway/core/tag_import.py:100-185 | no two planned writes share a name in any case, whatever the file contains |
| `ImportLaws.PlanMeans` | src/snap7_gateway/core/tag_import.py:117-178 | what becomes of each row, both ways: invalid, name taken by an earlier row that writes, new, to be replaced, or skipped for that very tag |
| `ImportLaws.PlanWithoutOverwriting` | src/snap7_gateway/core/tag_import.py:135-153 | without overwriting, a valid row whose name the connection has is skipped for that tag; any other valid row is a new tag, the first of its name |
| `ImportLaws.NothingOverwrittenUnasked` | src/snap7_gateway/core/tag_import.py:100-252 | without overwriting every row that existed is still there, as it was |
| `ImportLaws.ImportedFieldByField` | src/snap7_gateway/core/tag_import.py:100-252 | after an import with overwriting an importable row's tag is the row's own in every field, its comment as description cut to 255 |
| `TagImport.ApplyImport` | src/snap7_gateway/core/tag_import.py:188-252 | nothing is written above the limit; otherwise rows are written one by one, a refused one becoming a rejection |
| `TagImport.ImportKeepsNamesDistinct` | src/snap7_gateway/core/tag_import.py:100-252 | plan and apply keep names distinct in any case, refuse no row, add exactly the planned creates, leave other connections alone |
| `TagImport.ImportedAsTheFileHasIt` | src/snap7_gateway/core/tag_import.py:100-252 | after an overwriting import every importable entry is in the table as the file has it |
| `TagImport.ImportIsIdempotent` | src/snap7_gateway/core/tag_import.py:100-252 | planning the same file again with overwrite yields no write |
| `RateLimiter.Limiter.Check` | src/snap7_gateway/auth/service.py:104-116 | one attempt: eviction, expiry, refusal with the time to wait, or acceptance |
| `RateLimiter.Limiter.Evict` | src/snap7_gateway/auth/service.py:122-124 | exactly the idle keys are forgotten |
| `RateLimiter.SlidingWindowGuarantee` | src/snap7_gateway/auth/service.py:89-124 | over any run with a rising clock and no reset of the key, any limit + 1 successive accepted attempts span more than the window |
| `RateLimiter.AcceptedIffRoom` | src/snap7_gateway/auth/service.py:104-116 | over any run an attempt is accepted exactly when fewer than the limit were, or the one limit places back is more than a window old |
| `RateLimiter.EvictionForgetsTheQuiet` | src/snap7_gateway/auth/service.py:122-124 | eviction forgets exactly the sources quiet for longer than the window |
| `RateLimiter.AcceptedIffWaitedLonger` | src/snap7_gateway/auth/service.py:104-116 | a refused source that stays quiet is accepted exactly when it waits longer than it was told |
| `RateLimiter.WaitingExactlyIsRefused` | src/snap7_gateway/auth/service.py:111-114 | refused at 0.5 and told to wait 0.5, a source that comes back at 1.0 is refused again |
| `PlcClient.ReadArea` | src/snap7_gateway/plc/client.py:228-266 | the chunk loop computes `Read` |
| `PlcClient.ReadIsExact` | src/snap7_gateway/plc/client.py:228-266 | with full-chunk replies exactly the bytes asked for come back; past the end it fails as a whole |
| `PlcClient.ProbeAreaSize` | src/snap7_gateway/plc/client.py:321-341 | the size found is readable, at most and at least half of what could be found, in at most floor(log2 max) + 1 probes |
| `PlcClient.ServedMemoryIsReadable` | src/snap7_gateway/plc/client.py:321-341 | a PLC serving a memory is readable to exactly its length, so the probe's bounds apply to it |
| `Areas.Database.UpsertArea` | src/snap7_gateway/db/store.py:399-440 | the default exposure applies to a new row only |
| `Areas.Database.SetAreaStatus` | src/snap7_gateway/db/store.py:442-448 | changes one row's status and nothing else |
| `Areas.Database.SetAreaExposed` | src/snap7_gateway/db/store.py:450-451 | changes one row's exposure and nothing else |
| `Areas.Database.DeleteArea` | src/snap7_gateway/db/store.py:458-459 | removes one row |
| `Discovery.DiffDiscovery` | src/snap7_gateway/plc/discovery.py:181-228 | every stored or found area is reported exactly once, with what happened to it |
| `Discovery.ApplyDiscovery` | src/snap7_gateway/plc/discovery.py:239-330 | the table afterwards, row by row; a pass of nothing but errors changes nothing |
| `DiscoveryLaws.ReportedAreaAfter` | src/snap7_gateway/plc/discovery.py:181-236 | an area that was reported has the size last reported, and is NEW, GROWN, SHRUNK or OK exactly as it was unknown, or its size rose, fell or stayed |
| `DiscoveryLaws.UnreportedAreaAfter` | src/snap7_gateway/plc/discovery.py:215-330 | any other row of the connection is MISSING at its size, those of others are untouched, none appears, and a pass of nothing but errors touches none |
| `Discovery.DiscoveryNeverExposes` | src/snap7_gateway/plc/discovery.py:239-305 | no row disappears, no existing exposure changes, a new row is exposed exactly under Mirror All |
| `Discovery.ShrunkSurvivesIffShrinkingAgain` | src/snap7_gateway/plc/discovery.py:181-236 | SHRUNK survives the next pass exactly when that one is smaller still; seen again at the new size it turns OK |
| `Discovery.SecondPassForgetsTheShrinking` | src/snap7_gateway/plc/discovery.py:181-236 | four bytes, then two, then two again: SHRUNK after the first pass, OK after the second |
| `DataStore.Store.Publish` | src/snap7_gateway/core/datastore.py:129-149 | the read replaces the snapshot |
| `DataStore.Store.PublishFailure` | src/snap7_gateway/core/datastore.py:151-168 | the payload is kept, marked bad |
| `DataStore.Store.Fresh` | src/snap7_gateway/core/datastore.py:174-179 | yields the snapshot exactly when it is good and recent |
| `DataStore.Store.Retain` | src/snap7_gateway/core/datastore.py:197-207 | exactly the unlisted snapshots go, and are counted |
| `VirtualPlc.SameSlotIff` | src/snap7_gateway/virtual_plc/server.py:242 | two keys share a Snap7 slot exactly when they are the same area of different connections |
| `VirtualPlc.ImageKeepsSlotsApart` | src/snap7_gateway/virtual_plc/server.py:242-277 | while every registration's slot holds its own buffer, no two registrations share a slot |
| `VirtualPlc.ImageKeptIffSlotFree` | src/snap7_gateway/virtual_plc/server.py:242-277 | registering a key under a buffer of its own leaves every slot holding its registration's own buffer exactly when no other connection's same area is registered |
| `VirtualPlc.ClientReadsOtherConnection` | src/snap7_gateway/virtual_plc/server.py:242-277 | two connections with a data block 1: a client reading the slot of the first gets the bytes of the second |
| `VirtualPlc.VirtualPlcServer.Register` | src/snap7_gateway/virtual_plc/server.py:212-277 | exact size, zero-padded fresh buffer; replaced at another size, untouched at the same; gone when the server refuses |
| `VirtualPlc.VirtualPlcServer.Unregister` | src/snap7_gateway/virtual_plc/server.py:279-297 | the key leaves both tables, nothing else does |
| `VirtualPlc.VirtualPlcServer.Update` | src/snap7_gateway/virtual_plc/server.py:302-349 | the data goes into the very buffer the slot holds, cut or zero-padded; other buffers keep theirs |
| `VirtualPlc.VirtualPlcServer.Stop` | src/snap7_gateway/virtual_plc/server.py:176-191 | every registration and slot goes |
| `VirtualPlc.VirtualPlcServer.RegisteredSize` | src/snap7_gateway/virtual_plc/server.py:200-203 | the size of what is served, 0 when nothing is |
| `VirtualPlc.VirtualPlcServer.ReadBack` | src/snap7_gateway/virtual_plc/server.py:351-357 | what is served |
| `VirtualPlc.RegisteredWhereClientsLook` | src/snap7_gateway/virtual_plc/server.py:47-52 | every area is registered at the slot a client means by it, and nowhere else |
| `VirtualPlc.VirtualPlcServer.ClientRead` | src/snap7_gateway/virtual_plc/server.py:233-277 | a client reading the process inputs, the process outputs, the merkers or data block n gets the registered Inputs, Outputs, Merkers or DataBlock(n) area's current bytes, and finds something only where such an area is registered |
| `ServedData.Perform` | src/snap7_gateway/virtual_plc/server.py:130-349 | each operation does to the server what the run model says, and keeps the slot table its image |
| `ServedData.ServesTheLastWrite` | src/snap7_gateway/virtual_plc/server.py:176-349 | after any run a registered area has the size last asked for and serves the bytes written last, cut or zero-padded |
| `ServedData.PerformAll` | src/snap7_gateway/virtual_plc/server.py:130-349 | any sequence of operations on a live server ends as the run model says, its slot table the image of its registrations when the areas asked for have slots of their own |
| `ServedData.ReadAfterAll` | src/snap7_gateway/virtual_plc/server.py:130-349 | what a client then reads where it looks for a registered area: the bytes written last, at the size last asked for |
| `ServedData.ReadImagesAfterAll` | src/snap7_gateway/virtual_plc/server.py:47-52 | after any sequence of operations the process-input code yields the inputs, the process-output code the outputs, the merker code the merkers and block number n data block n |
| `Sync.BuildPlan` | src/snap7_gateway/virtual_plc/sync.py:197-243 | the loops list exactly the enabled, exposed or mirrored, non-empty, fresh areas, once each, with their planned bytes; hidden ones are counted |
| `Sync.ReconciliationIsExact` | src/snap7_gateway/virtual_plc/sync.py:163-243 | with sizes up to 8 MiB and no refusal, an area is registered after a tick exactly when its connection is enabled, it is exposed or mirrored, not empty and freshly read; it serves that read, cut or padded to its size, or to the larger held size of a shrunk area |
| `Sync.OnlyPlannedKeysStay` | src/snap7_gateway/virtual_plc/sync.py:163-195 | whatever fails, only planned keys stay registered |
| `SyncTask.AreaSyncTask.SyncOnce` | src/snap7_gateway/virtual_plc/sync.py:163-195 | one tick on the live objects: what is served afterwards, refusals and impossible sizes included; the slot table stays the image |
| `Gateway.Runtime.SetExposure` | src/snap7_gateway/web/routes/tags.py:126-158 | an operator's exposure decision, either way, is that row's flag, nothing else changes, and is that step of the bridge |
| `Gateway.Runtime.AcceptShape` | src/snap7_gateway/web/routes/tags.py:160-187 | confirming a shape is that step |
| `Gateway.Runtime.ForgetArea` | src/snap7_gateway/web/routes/tags.py:190-215 | forgetting an area is that step |
| `Gateway.Runtime.RunDiscovery` | src/snap7_gateway/core/worker.py:279-325 | a rescan with its store clean-up is that step |
| `Gateway.Runtime.Poll` | src/snap7_gateway/core/worker.py:222-245 | a poll reads the whole area by its stored size; a good reply and a refusal are those steps |
| `Gateway.Runtime.SyncTick` | src/snap7_gateway/virtual_plc/sync.py:163-195 | a tick is that step, and keeps the slot table the image when it plans no area of two connections |
| `Gateway.Runtime.StartServer` | src/snap7_gateway/virtual_plc/server.py:130-174 | starting the CPU is that step, and nothing when it runs |
| `Gateway.Runtime.RemoveConnection` | src/snap7_gateway/db/store.py:355-356 | deleting a connection with its areas is that step |
| `Gateway.Runtime.PerformAll` | src/snap7_gateway/virtual_plc/sync.py:163-243 | any run of steps on new live objects ends in the state of the state machine's run, so what is proved of every run holds of the objects |
| `Gateway.Runtime.ReadAfterAll` | src/snap7_gateway/virtual_plc/server.py:47-52 | what a client reads after any run: the served bytes of the area it means by the slot, and nothing exactly when none is served |
| `Bridge.ExposureHasAnOrigin` | src/snap7_gateway/plc/discovery.py:239-305 | over any run: an exposed area was exposed by the operator or first inserted under Mirror All, and not hidden or removed since |
| `Liveness.ExposedIffGranted` | src/snap7_gateway/plc/discovery.py:239-305 | over any run an area is known and exposed exactly when it was granted exposure and nothing has revoked it since |
| `Liveness.ConfiguredAsLastSaved` | src/snap7_gateway/db/store.py:328-356 | over any run a connection has the settings it was last given, unless deleted since |
| `Liveness.RunningIffStarted` | src/snap7_gateway/virtual_plc/server.py:130-191 | over any run the virtual CPU runs exactly when it was started and not stopped since |
| `Bridge.RegisteredOnlyIfGranted` | src/snap7_gateway/virtual_plc/sync.py:208-224 | whatever a tick leaves registered is enabled, and exposed or mirrored; under Whitelist it traces back to such a grant |
| `Staleness.SnapshotIsTheNewestRead` | src/snap7_gateway/core/datastore.py:129-168 | a good snapshot is the newest read attempt of its area, with its time |
| `Liveness.NewestReadIsKept` | src/snap7_gateway/core/datastore.py:129-213 | a successful read is kept, with its time, until the area is read again, forgotten, or dropped with its connection |
| `Staleness.ServedBytesComeFromAFreshRead` | src/snap7_gateway/virtual_plc/sync.py:208-243 | what is served at any moment was published by the last tick from the newest attempt to read the area, a success no older then than the stale timeout - or is what the area held before, when the tick found it above 8 MiB |
| `Staleness.TickRefreshesIff` | src/snap7_gateway/virtual_plc/sync.py:178-189 | of the areas a tick keeps registered it refreshes exactly those of at most 8 MiB |
| `Staleness.StalenessIsBounded` | src/snap7_gateway/virtual_plc/sync.py:172-224 | with ticks at most D apart while the CPU runs, every byte served at any moment is from a read no older than the stale timeout plus D, unless the last tick found that very area above 8 MiB |
| `Staleness.OversizedIsWithdrawnOncePolled` | src/snap7_gateway/core/worker.py:222-245 | once an area above 8 MiB is polled, and while it stays so, no tick leaves it registered: the read is refused |
| `Staleness.GrownAreaStalenessIsBounded` | src/snap7_gateway/virtual_plc/server.py:219-223 | an area grown above 8 MiB serves its old bytes no longer than its last small read is fresh: no byte is older than twice the stale timeout plus D |
| `Staleness.GrownAreaReachesTheBound` | src/snap7_gateway/virtual_plc/sync.py:178-189 | a run, each step the code's own, that serves bytes of exactly that age |
| `Liveness.DueAreasAreServed` | src/snap7_gateway/virtual_plc/sync.py:172-243 | when a tick, not refused, finds an area enabled, exposed or mirrored, of a size to register, and its newest read attempt a success no older than the stale timeout, clients get that read from then on, until the next tick or its withdrawal |
| `Liveness.ExposingPublishes` | src/snap7_gateway/web/routes/tags.py:126-158 | the operator exposes an area whose read is fresh, and the next tick, not refused, publishes it |
| `Liveness.HidingWithdraws` | src/snap7_gateway/web/routes/tags.py:126-158 | under Whitelist, hiding an area withdraws it at the next tick |
| `Liveness.ConfirmedShapeIsRegistered` | src/snap7_gateway/web/routes/tags.py:160-187 | confirming a changed shape makes the next tick, not refused, register exactly the new size |
| `Staleness.TickHoldsTheShape` | src/snap7_gateway/virtual_plc/sync.py:226-240 | a tick leaves a planned shrunk area at the larger of its registered and new size, with zeros past the data |
| `Staleness.ShrunkShapeNeverDrops` | src/snap7_gateway/virtual_plc/sync.py:226-240 | over any stretch in which it stays shrunk and planned, its registered size never drops |
| `Manager.SameLinkIff` | src/snap7_gateway/core/manager.py:25-27 | two configurations have the same restart signature exactly when they differ in nothing but name, exposure mode, write permission, the process areas read and how far |
| `Manager.ConnectionManager.Reconcile` | src/snap7_gateway/core/manager.py:105-128 | one connection: its worker object is kept, with the new settings, exactly when its signature did not change, else stopped |
| `Manager.ConnectionManager.ApplyConfig` | src/snap7_gateway/core/manager.py:83-128 | afterwards exactly the enabled connections have a running worker, each with all its current settings; a worker object is kept exactly when its link did not change, else stopped; deleted connections lose their snapshots; applying again changes nothing |

## Left out

- Text reading: regular expressions, comments, quoting and file formats. The declaration parser
  starts from classified lines, declared types from normalised ones, import rows from cells.
- TIA XML declarations (db_layout.py:275-380), the header of a source file and the refusal of
  optimised blocks.
- Unicode digits, letters and spaces in addresses and names; both are modelled on ASCII, with all
  ASCII white space.
- Notes, reason and log texts, audit rows, statistics, timestamps and update counters.
- The IEEE meaning of REAL and LREAL, and their overflow errors: values are raw bit patterns of 4
  and 8 bytes.
- Conversion of text to numbers and flags before encoding (decoding.py:247-269).
- Database row identifiers and order: rows are keyed by their unique key, and the order of
  changes, areas and planned entries is not specified, only that each occurs once.
- The range of a bit in a data-block address (DB10.DBX4.9 parses, as in the code); only simple
  addresses are checked there.
- Python's aliased member lists are arena indices in `DeclLoop`; the layout's members are values,
  patched by index.
- `Snap7` itself: its table of buffers by reference is all that is modelled. The copy-mode fallback
  and re-registration on update (server.py:328-349, 360-377), area locks, and errors on
  unregistering are not.
- Threads and locks: operations are atomic, and a tick sees one time, `now`.
- Block discovery on the PLC (discovery.py:128-178): its report is an input of the rescan step.
- The supervision and back-off of connection workers (core/worker.py), and their own copy of the
  connection: a rescan uses the configured exposure mode. A poll of any area may come at any time and
  bring anything, but for areas above 8 MiB, which the client refuses to read; that covers every
  polling schedule.
- `Manager.ConnectionManager.ApplyConfig`: a worker's discovery limits are not modelled, and
  stopping a worker always succeeds.
- `Staleness.StalenessIsBounded`: ages are differences of clock readings, and time only passes. The
  code takes a read from the future for a new one, so a clock that is set back makes data look
  younger than it is for as long as it was set back.
- `Staleness.GrownAreaStalenessIsBounded`: supposes that the area has stayed above 8 MiB since it
  grew; one that shrinks back and is read in between has grown anew.
- `Names.SanitizeName`: validity is stated below 10^62 taken names, where suffixes still leave room
  for the first letter.
- `RateLimiter.SlidingWindowGuarantee`: supposes a clock that does not run back.
- Web pages, sessions, passwords, settings, certificates, services and the command line.
