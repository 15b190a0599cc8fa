// What a declared type means: the bytes a member of the type takes, the values it holds, and how
// its bytes spell them - said from the declaration, for members of computed blocks.
module TypeMeaning {
  import opened Wrappers
  import opened Bytes
  import opened Bits
  import opened Decoding
  import opened S7Types
  import opened DbLayout
  import opened LayoutLaws
  import opened MemoryModel
  import opened Listing

  // ---------------------------------------------------------------- bytes and numbers

  // The unsigned number in the bytes from `at` on, first byte highest.
  function UnsignedAt(buffer: seq<Bytes.Byte>, at: nat, width: nat): nat
    requires at + width <= |buffer| && (width == 1 || width == 2 || width == 4)
  {
    var b := k requires at <= k < |buffer| => buffer[k] as nat;
    if width == 1 then b(at)
    else if width == 2 then 0x100 * b(at) + b(at + 1)
    else 0x100_0000 * b(at) + 0x1_0000 * b(at + 1) + 0x100 * b(at + 2) + b(at + 3)
  }

  // Two's complement.
  function SignedAt(buffer: seq<Bytes.Byte>, at: nat, width: nat): int
    requires at + width <= |buffer| && (width == 2 || width == 4)
  {
    var u := UnsignedAt(buffer, at, width);
    if width == 2 then (if u < 0x8000 then u else u - 0x1_0000)
    else (if u < 0x8000_0000 then u else u - 0x1_0000_0000)
  }

  lemma {:induction false} BigEndianOfFew(s: seq<Bytes.Byte>)
    ensures |s| == 1 ==> FromBigEndian(s) == s[0] as nat
    ensures |s| == 2 ==> FromBigEndian(s) == 0x100 * (s[0] as nat) + s[1] as nat
  {
    if |s| == 1 {
      assert s[..0] == [];
    } else if |s| == 2 {
      assert s[..1][..0] == [] && FromBigEndian(s[..1]) == s[0] as nat;
    }
  }

  lemma {:induction false} BigEndianOfFour(s: seq<Bytes.Byte>)
    requires |s| == 4
    ensures FromBigEndian(s)
            == 0x100_0000 * (s[0] as nat) + 0x1_0000 * (s[1] as nat) + 0x100 * (s[2] as nat) + s[3] as nat
  {
    var two := s[..2];
    BigEndianOfFew(two);
    assert s[..3][..2] == two && s[..3][2] == s[2];
    assert FromBigEndian(s[..3]) == 256 * FromBigEndian(two) + s[2] as nat;
  }

  lemma {:induction false} NumberAt(buffer: seq<Bytes.Byte>, at: nat, width: nat)
    requires at + width <= |buffer| && (width == 1 || width == 2 || width == 4)
    ensures FromBigEndian(buffer[at..at + width]) == UnsignedAt(buffer, at, width)
    ensures width != 1 ==> Signed(FromBigEndian(buffer[at..at + width]), width) == SignedAt(buffer, at, width)
  {
    var s := buffer[at..at + width];
    PowersOf256();
    if width == 4 {
      BigEndianOfFour(s);
    } else {
      BigEndianOfFew(s);
    }
  }

  // ---------------------------------------------------------------- bits

  // Bit k of a byte is its binary digit of weight 2^k.
  lemma {:induction false} BitIsBinaryDigit(b: Bytes.Byte, bit: nat)
    requires bit <= 7
    ensures BitOf(b, bit) <==> (b as int / Weight(bit)) % 2 == 1
  {
    var bits := b as bv8;
    BitsOfNumber(b as int);
    ShiftDivides(bits, bit);
    LowBitIsOdd(bits >> (bit as bv8));
  }

  // ---------------------------------------------------------------- widths

  // The bytes a declaration takes, outside arrays and structures.
  function Width(d: Declared): nat
    requires d.Fixed? || d.Str? || d.WStr?
  {
    match d
    case Fixed(e) =>
      if e in {Bool, Elementary.Byte, Char, SInt, USInt} then 1
      else if e in {Word, Int, UInt, S5Time, Date, Timer, Counter} then 2
      else if e in {DWord, DInt, UDInt, Real, Time, TimeOfDay, Tod} then 4
      else if e == Dtl then 12
      else if e in {IecTimer, IecCounter} then 16
      else 8
    case Str(n) =>
      var length := if n.Some? then n.value else 254;
      if 1 <= length <= 254 then length + 2 else 2
    case WStr(n) => 2 * (if n.Some? then n.value else 254) + 4
  }

  lemma {:induction false} OccupiesItsWidth(d: Declared)
    requires d.Fixed? || d.Str? || d.WStr?
    ensures MapDeclaredType(d).size == Width(d)
  {
  }

  // ---------------------------------------------------------------- values

  const UnsignedBytes := {Elementary.Byte, SInt, USInt}
  const UnsignedWords := {Word, S5Time, UInt, Date}
  const UnsignedDoubles := {DWord, UDInt, TimeOfDay, Tod}
  const SignedDoubles := {DInt, Time}

  // The values a member declared d holds.
  predicate Holds(d: Declared, value: Value) {
    match d
    case Fixed(e) =>
      if e == Bool then value.Flag?
      else if e in UnsignedBytes then value.Number? && 0 <= value.number < 0x100
      else if e in UnsignedWords then value.Number? && 0 <= value.number < 0x1_0000
      else if e in UnsignedDoubles then value.Number? && 0 <= value.number < 0x1_0000_0000
      else if e == Int then value.Number? && -0x8000 <= value.number < 0x8000
      else if e in SignedDoubles then value.Number? && -0x8000_0000 <= value.number < 0x8000_0000
      else if e == Real then value.Raw? && |value.pattern| == 4
      else if e == LReal then value.Raw? && |value.pattern| == 8
      else if e == Char then value.Text? && |value.codes| == 1
      else false
    case Str(n) =>
      var length := if n.Some? then n.value else 254;
      1 <= length <= 254 && value.Text?
    case _ => false
  }

  // What the bytes at a member's place say, None where there is no single value.
  function ValueAt(buffer: seq<Bytes.Byte>, d: Declared, at: nat, bit: nat): Option<Value>
    requires bit <= 7 && (d.Fixed? || d.Str? ==> at + Width(d) <= |buffer|)
  {
    match d
    case Fixed(e) =>
      if e == Bool then Some(Flag((buffer[at] as nat / Weight(bit)) % 2 == 1))
      else if e in UnsignedBytes then Some(Number(UnsignedAt(buffer, at, 1)))
      else if e in UnsignedWords then Some(Number(UnsignedAt(buffer, at, 2)))
      else if e in UnsignedDoubles then Some(Number(UnsignedAt(buffer, at, 4)))
      else if e == Int then Some(Number(SignedAt(buffer, at, 2)))
      else if e in SignedDoubles then Some(Number(SignedAt(buffer, at, 4)))
      else if e == Real then Some(Raw(buffer[at..at + 4]))
      else if e == LReal then Some(Raw(buffer[at..at + 8]))
      else if e == Char then Some(Text([buffer[at] as nat]))
      else None
    case Str(n) =>
      var length := if n.Some? then n.value else 254;
      if !(1 <= length <= 254) then None
      else
        var most := if buffer[at] == 0 || buffer[at] as nat > length then length else buffer[at] as nat;
        var count := if buffer[at + 1] as nat > most then most else buffer[at + 1] as nat;
        Some(Text(seq(count, k requires 0 <= k < count => buffer[at + 2 + k] as nat)))
    case _ => None
  }

  predicate Listed(m: DbMember) {
    !m.IsContainer() && AsInTable(m) && WellTyped(m)
  }

  lemma {:induction false} ReadableIffHolding(d: Declared)
    ensures MapDeclaredType(d).Supported() ==> d.Fixed? || d.Str?
  {
    TypeTableAgreesWithDecoder(d);
  }

  lemma {:induction false} ReadsUnsigned(m: DbMember, buffer: seq<Bytes.Byte>)
    requires Listed(m) && m.declared.Fixed? && m.byteOffset + m.size <= |buffer|
    requires m.declared.elementary in UnsignedBytes + UnsignedWords + UnsignedDoubles
    ensures m.Supported() && ReadMember(buffer, m) == Ok(Number(UnsignedAt(buffer, m.byteOffset, Width(m.declared))))
  {
    NumberAt(buffer, m.byteOffset, Width(m.declared));
  }

  lemma {:induction false} ReadsSigned(m: DbMember, buffer: seq<Bytes.Byte>)
    requires Listed(m) && m.declared.Fixed? && m.byteOffset + m.size <= |buffer|
    requires m.declared.elementary in {Int} + SignedDoubles
    ensures m.Supported() && ReadMember(buffer, m) == Ok(Number(SignedAt(buffer, m.byteOffset, Width(m.declared))))
  {
    NumberAt(buffer, m.byteOffset, Width(m.declared));
  }

  lemma {:induction false} ReadsFlag(m: DbMember, buffer: seq<Bytes.Byte>)
    requires Listed(m) && m.declared == Fixed(Bool) && m.byteOffset + m.size <= |buffer|
    ensures m.Supported()
    ensures ReadMember(buffer, m) == Ok(Flag((buffer[m.byteOffset] as nat / Weight(m.bitOffset)) % 2 == 1))
  {
    BitIsBinaryDigit(buffer[m.byteOffset], m.bitOffset);
  }

  lemma {:induction false} ReadsPattern(m: DbMember, buffer: seq<Bytes.Byte>)
    requires Listed(m) && m.declared.Fixed? && m.byteOffset + m.size <= |buffer|
    requires m.declared.elementary in {Real, LReal, Char}
    ensures m.Supported() && ReadMember(buffer, m) == Ok(ValueAt(buffer, m.declared, m.byteOffset, m.bitOffset).value)
  {
  }

  const Readables := UnsignedBytes + UnsignedWords + UnsignedDoubles + {Int} + SignedDoubles + {Bool, Real, LReal, Char}

  lemma {:induction false} OthersAreUnreadable(e: Elementary)
    ensures MapDeclaredType(Fixed(e)).Supported() <==> e in Readables
  {
  }

  lemma {:induction false} ReadsText(m: DbMember, buffer: seq<Bytes.Byte>)
    requires Listed(m) && m.declared.Str? && m.byteOffset + m.size <= |buffer|
    ensures var value := ValueAt(buffer, m.declared, m.byteOffset, m.bitOffset);
            && (m.Supported() <==> value.Some?)
            && (m.Supported() ==> ReadMember(buffer, m) == Ok(value.value))
  {
    if m.Supported() {
      var at, value := m.byteOffset, ValueAt(buffer, m.declared, m.byteOffset, m.bitOffset);
      var count := AnnouncedLength(buffer[at] as nat, buffer[at + 1] as nat, m.length);
      assert CodesOf(buffer[at + 2..at + 2 + count]) == value.value.codes;
    }
  }

  // A listed member reads as its declaration says, from the bytes at its place and no others.
  lemma {:induction false} ReadsAsDeclared(m: DbMember, buffer: seq<Bytes.Byte>)
    requires Listed(m) && m.byteOffset + m.size <= |buffer|
    ensures m.declared.Fixed? || m.declared.Str? ==> Width(m.declared) == m.size
    ensures var value := ValueAt(buffer, m.declared, m.byteOffset, m.bitOffset);
            && (m.Supported() <==> value.Some?)
            && (m.Supported() ==> ReadMember(buffer, m) == Ok(value.value))
  {
    ReadableIffHolding(m.declared);
    if m.declared.Fixed? {
      OccupiesItsWidth(m.declared);
      var e := m.declared.elementary;
      if e in UnsignedBytes + UnsignedWords + UnsignedDoubles {
        ReadsUnsigned(m, buffer);
      } else if e in {Int} + SignedDoubles {
        ReadsSigned(m, buffer);
      } else if e == Bool {
        ReadsFlag(m, buffer);
      } else if e in {Real, LReal, Char} {
        ReadsPattern(m, buffer);
      } else {
        OthersAreUnreadable(e);
      }
    } else if m.declared.Str? {
      OccupiesItsWidth(m.declared);
      ReadsText(m, buffer);
    }
  }

  lemma {:induction false} AcceptsWhatItHolds(m: DbMember, value: Value)
    requires Listed(m)
    ensures Accepts(m, value) <==> Holds(m.declared, value)
  {
    ReadableIffHolding(m.declared);
  }

  // What is kept of a written value: characters outside Latin-1 become question marks, and a text
  // is cut to the declared length.
  function Kept(d: Declared, value: Value): Value {
    if !value.Text? then value
    else
      var length := if d.Str? then (if d.declaredLength.Some? then d.declaredLength.value else 254) else 1;
      var count := if |value.codes| > length then length else |value.codes|;
      Text(seq(count, k requires 0 <= k < count => if value.codes[k] <= 255 then value.codes[k] else '?' as nat))
  }

  lemma {:induction false} StoredIsKept(m: DbMember, value: Value)
    requires Listed(m) && Holds(m.declared, value)
    ensures m.Supported() && Stored(value, m.dataType.value, m.length) == Kept(m.declared, value)
  {
    AcceptsWhatItHolds(m, value);
    if value.Text? {
      var stored, kept := Stored(value, m.dataType.value, m.length), Kept(m.declared, value);
      assert stored.codes == kept.codes;
    }
  }

  // ---------------------------------------------------------------- end to end

  lemma {:induction false} MembersAreListed(nodes: seq<MemberNode>, i: nat)
    requires i < |BlockMembers(nodes)| && !BlockMembers(nodes)[i].IsContainer()
    ensures Listed(BlockMembers(nodes)[i])
  {
    WalkIsAsInTable(nodes, 0, 0, "", 0, BlockMembers(nodes)[i]);
    WalkIsWellTyped(nodes, 0, 0, "", 0);
  }

  // Any member of any computed block: what it reads as is said by its declaration and its bytes;
  // it can be written exactly the values its declaration holds, and reads them back.
  lemma {:induction false} BlockMembersMeanWhatTheyDeclare(nodes: seq<MemberNode>, buffer: seq<Bytes.Byte>, i: nat)
    requires |buffer| >= TotalBytes(nodes)
    requires i < |BlockMembers(nodes)| && !BlockMembers(nodes)[i].IsContainer()
    ensures var m := BlockMembers(nodes)[i];
            && m.byteOffset + m.size <= |buffer| && m.bitOffset <= 7
            && (m.declared.Fixed? || m.declared.Str? ==> Width(m.declared) == m.size)
            && var value := ValueAt(buffer, m.declared, m.byteOffset, m.bitOffset);
               && (m.Supported() <==> value.Some?)
               && (m.Supported() ==> ReadMember(buffer, m) == Ok(value.value))
  {
    var m := BlockMembers(nodes)[i];
    MembersAreListed(nodes, i);
    PlaceInBlock(nodes, i);
    ReadsAsDeclared(m, buffer);
  }

  lemma {:induction false} PlaceInBlock(nodes: seq<MemberNode>, i: nat)
    requires i < |BlockMembers(nodes)| && !BlockMembers(nodes)[i].IsContainer()
    ensures var m := BlockMembers(nodes)[i]; m.byteOffset + m.size <= TotalBytes(nodes) && m.bitOffset <= 7
  {
    BlockHasNoOverlap(nodes);
    MembersAreListed(nodes, i);
  }

  lemma {:induction false} BlockMembersHoldWhatTheyDeclare(nodes: seq<MemberNode>, buffer: seq<Bytes.Byte>, i: nat,
                                                           value: Value)
    requires |buffer| >= TotalBytes(nodes)
    requires i < |BlockMembers(nodes)| && !BlockMembers(nodes)[i].IsContainer()
    ensures var m := BlockMembers(nodes)[i];
            && (m.Supported() ==> (WriteMember(buffer, m, value).Ok? <==> Holds(m.declared, value)))
            && (Holds(m.declared, value) ==>
                  && m.Supported() && WriteMember(buffer, m, value).Ok?
                  && ReadMember(WriteMember(buffer, m, value).value, m) == Ok(Kept(m.declared, value)))
  {
    var m := BlockMembers(nodes)[i];
    MembersAreListed(nodes, i);
    AcceptsWhatItHolds(m, value);
    BlockMembersAreAddressable(nodes, buffer);
    if Holds(m.declared, value) {
      StoredIsKept(m, value);
      WriteThenReadSame(buffer, m, value);
    } else if m.Supported() {
      EncodeAcceptsExactlyRepresentable(value, m.dataType.value, m.length, m.bitOffset);
    }
  }
}
