// The address texts shown for laid-out members and for tags, and what they mean when read back.
module MemberAddresses {
  import opened Wrappers
  import opened Decoding
  import opened S7Types
  import opened Decimal
  import opened Addressing
  import opened DbLayout
  import opened LayoutLaws

  // A member with no single value is printed with its length, in a form that is no address.
  function MemberAddress(m: DbMember, db: nat): string {
    if m.dataType == Some(BOOL) then DbText(db, 'X', m.byteOffset, BitSuffix(m.bitOffset))
    else if !m.Supported() then DbText(db, 'B', m.byteOffset, "+" + ToDecimal(m.size))
    else DbText(db, if m.size == 2 then 'W' else if m.size == 4 then 'D' else 'B', m.byteOffset, "")
  }

  datatype TagPlace = TagPlace(area: Area, db: nat, byteOffset: nat, bitOffset: nat, dataType: DataType)
  {
    predicate Valid() {
      area.Mirrored() && (area != DbArea ==> db == 0) && bitOffset <= 7 && (dataType != BOOL ==> bitOffset == 0)
    }
  }

  function TagWidth(t: DataType): char {
    match t
    case BOOL => 'X'
    case BYTE | CHAR | STRING => 'B'
    case WORD | INT | UINT => 'W'
    case DWORD | DINT | UDINT | REAL | LREAL => 'D'
  }

  function TagAddress(t: TagPlace): string
    requires t.area.Mirrored()
  {
    var width := TagWidth(t.dataType);
    if t.area == DbArea then
      DbText(t.db, width, t.byteOffset, if width == 'X' then BitSuffix(t.bitOffset) else "")
    else if width == 'X' then SimpleText(AreaLetter(t.area), "", t.byteOffset, BitSuffix(t.bitOffset))
    else SimpleText(AreaLetter(t.area), [width], t.byteOffset, "")
  }

  predicate SamePlace(r: AddressResult, area: Area, db: nat, byteOffset: nat, bitOffset: nat) {
    && r.Parsed? && r.address.area == area && r.address.db == db
    && r.address.byteOffset == byteOffset && r.address.bitOffset == bitOffset
  }

  // For any well-typed member: a readable one prints an address of exactly its own place, an
  // unreadable one prints text that is not an address.
  lemma {:induction false} MemberAddressParsesBack(m: DbMember, db: nat)
    requires WellTyped(m)
    ensures m.Supported() ==> SamePlace(ParseAddress(MemberAddress(m, db)), DbArea, db, m.byteOffset, m.bitOffset)
    ensures m.Supported() ==> (ParseAddress(MemberAddress(m, db)).address.IsBit() <==> m.dataType == Some(BOOL))
    ensures !m.Supported() ==> ParseAddress(MemberAddress(m, db)) == AddressError
  {
    if m.dataType == Some(BOOL) {
      ParseBitSuffix(m.bitOffset);
      ParseDbText(db, 'X', m.byteOffset, BitSuffix(m.bitOffset));
    } else if m.Supported() {
      ParseDbText(db, if m.size == 2 then 'W' else if m.size == 4 then 'D' else 'B', m.byteOffset, "");
    } else {
      var tail := "+" + ToDecimal(m.size);
      NumberEndsInDigit("+", m.size, "");
      assert ToDecimal(m.size) + "" == ToDecimal(m.size);
      ParseDbText(db, 'B', m.byteOffset, tail);
    }
  }

  // Over whole declarations: every member of every computed block.
  lemma {:induction false} BlockAddressesParseBack(nodes: seq<MemberNode>, db: nat, i: nat)
    requires i < |BlockMembers(nodes)|
    ensures var m := BlockMembers(nodes)[i];
            var r := ParseAddress(MemberAddress(m, db));
            if m.Supported() then SamePlace(r, DbArea, db, m.byteOffset, m.bitOffset) else r == AddressError
  {
    WalkIsWellTyped(nodes, 0, 0, "", 0);
    MemberAddressParsesBack(BlockMembers(nodes)[i], db);
  }

  lemma {:induction false} SimpleTagReads(t: TagPlace)
    requires t.Valid() && t.area != DbArea
    ensures var isBit := t.dataType == BOOL;
            var form := SimpleForm(AreaLetter(t.area), if isBit then NoMatch else Found(TagWidth(t.dataType)),
                                   t.byteOffset,
                                   if isBit then Bit(t.bitOffset) else NoBit);
            SamePlace(ResolveSimple(form), t.area, t.db, t.byteOffset, t.bitOffset)
            && (ResolveSimple(form).address.IsBit() <==> isBit)
    ensures t.dataType != BOOL ==> TagWidth(t.dataType) in {'B', 'W', 'D'}
  {
  }

  lemma {:induction false} TagAddressParsesBack(t: TagPlace)
    requires t.Valid()
    ensures SamePlace(ParseAddress(TagAddress(t)), t.area, t.db, t.byteOffset, t.bitOffset)
    ensures ParseAddress(TagAddress(t)).address.IsBit() <==> t.dataType == BOOL
  {
    var width := TagWidth(t.dataType);
    if t.area == DbArea {
      if t.dataType == BOOL {
        ParseBitSuffix(t.bitOffset);
        ParseDbText(t.db, 'X', t.byteOffset, BitSuffix(t.bitOffset));
      } else {
        ParseDbText(t.db, width, t.byteOffset, "");
      }
    } else {
      SimpleTagReads(t);
      if t.dataType == BOOL {
        ParseBitSuffix(t.bitOffset);
        ParseSimpleText(AreaLetter(t.area), "", t.byteOffset, BitSuffix(t.bitOffset));
      } else {
        ParseSimpleText(AreaLetter(t.area), [width], t.byteOffset, "");
      }
    }
  }

  function MemberWidth(m: DbMember): char
    requires m.Supported()
  {
    if m.dataType == Some(BOOL) then 'X' else if m.size == 2 then 'W' else if m.size == 4 then 'D' else 'B'
  }

  lemma {:induction false} WidthsAgreeIff(m: DbMember)
    requires WellTyped(m) && m.Supported()
    ensures MemberWidth(m) == TagWidth(m.dataType.value)
            <==> !(m.dataType.value == LREAL || (m.dataType.value == STRING && m.length == 2))
    ensures MemberWidth(m) == 'X' <==> TagWidth(m.dataType.value) == 'X'
    ensures MemberWidth(m) in "XBWD" && TagWidth(m.dataType.value) in "XBWD"
  {
  }

  lemma {:induction false} OtherWidthOtherText(db: nat, a: char, b: char, byteOffset: nat)
    requires a in "BWD" && b in "BWD" && a != b
    ensures DbText(db, a, byteOffset, "") != DbText(db, b, byteOffset, "")
  {
    ParseDbText(db, a, byteOffset, "");
    ParseDbText(db, b, byteOffset, "");
  }

  // A member and the tag imported from it show the same address, except for 8-byte reals and
  // for strings of two characters, whose four bytes make the member print a double word.
  lemma {:induction false} MemberAndTagAddressAgreeIff(m: DbMember, db: nat)
    requires WellTyped(m) && m.Supported()
    ensures MemberAddress(m, db) == TagAddress(TagPlace(DbArea, db, m.byteOffset, m.bitOffset, m.dataType.value))
            <==> !(m.dataType.value == LREAL || (m.dataType.value == STRING && m.length == 2))
  {
    WidthsAgreeIff(m);
    var a, b := MemberWidth(m), TagWidth(m.dataType.value);
    if a != b {
      OtherWidthOtherText(db, a, b, m.byteOffset);
    }
  }

  lemma {:induction false} LongRealsPrintTwoAddresses(path: string)
    ensures var m := DbMember(path, Fixed(LReal), 0, 0, 8, "", Some(LREAL), 1, NoReason);
            && MemberAddress(m, 1) == "DB1.DBB0"
            && TagAddress(TagPlace(DbArea, 1, m.byteOffset, m.bitOffset, LREAL)) == "DB1.DBD0"
  {
    assert ToDecimal(1) == "1" && ToDecimal(0) == "0";
  }
}
