// Siemens absolute addresses as text: reading every accepted spelling, printing the canonical one.
// Letters and digits are ASCII.
module Addressing {
  import opened Decoding
  import opened Decimal

  datatype BlockKind = DbBlock | Fb | Fc | Ob | Sfb | Sfc | Udt | Vat

  datatype Area = DbArea | Input | Output | Merker | TimerArea | CounterArea | Block(kind: BlockKind)
  {
    predicate Mirrored() { this in {DbArea, Input, Output, Merker} }
  }

  datatype ParsedAddress = ParsedAddress(area: Area, db: nat, byteOffset: nat, bitOffset: nat, implied: DataType)
  {
    predicate IsBit() { implied == BOOL }

    predicate Supported() { area.Mirrored() }
  }

  datatype Match<+T> = NoMatch | Found(value: T)
  {
    predicate IsFailure() { NoMatch? }
    function PropagateFailure<U>(): Match<U>
      requires NoMatch?
    {
      NoMatch
    }
    function Extract(): T
      requires Found?
    {
      value
    }
  }

  datatype AddressResult = Parsed(address: ParsedAddress) | AddressError

  // ---------------------------------------------------------------- text helpers

  // The ASCII characters that str.strip and a regular expression's \s take for spaces.
  predicate IsSpace(c: char) { c == ' ' || 9 <= c as int <= 13 || 28 <= c as int <= 31 }

  function Upper(c: char): char {
    if 'a' <= c <= 'z' then 'A' + (c - 'a') else c
  }

  function SkipSpaces(s: string): string {
    if s != "" && IsSpace(s[0]) then SkipSpaces(s[1..]) else s
  }

  function DropTrailingSpaces(s: string): string {
    if s != "" && IsSpace(s[|s| - 1]) then DropTrailingSpaces(s[..|s| - 1]) else s
  }

  function Strip(s: string): string { DropTrailingSpaces(SkipSpaces(s)) }

  function SkipPercent(s: string): string {
    if s != "" && s[0] == '%' then s[1..] else s
  }

  // `literal` (upper case) at the front, in any case; yields what follows.
  function Literal(s: string, literal: string): Match<string> {
    if |s| >= |literal| && (forall i :: 0 <= i < |literal| ==> Upper(s[i]) == literal[i])
    then Found(s[|literal|..])
    else NoMatch
  }

  function Letter(s: string, letters: string): Match<(char, string)> {
    if s != "" && Upper(s[0]) in letters then Found((Upper(s[0]), s[1..])) else NoMatch
  }

  function NumberAt(s: string): Match<(nat, string)> {
    var d := DigitPrefix(s);
    if d == "" then NoMatch else Found((FromDecimal(d), s[|d|..]))
  }

  datatype BitTail = NoBit | Bit(bit: nat)

  // The optional `.bit` that ends an address.
  function BitTailAt(s: string): Match<BitTail> {
    if s == "" then Found(NoBit)
    else if s[0] != '.' then NoMatch
    else
      var (n, rest) :- NumberAt(s[1..]);
      if rest == "" then Found(Bit(n)) else NoMatch
  }

  // ---------------------------------------------------------------- the four shapes, in order

  datatype DbForm = DbForm(db: nat, width: char, byteOffset: nat, tail: BitTail)

  // From the width letter on.
  function MatchField(db: nat, s: string): Match<DbForm> {
    var (width, s1) :- Letter(s, "XBWD");
    var (byteOffset, s2) :- NumberAt(SkipSpaces(s1));
    var tail :- BitTailAt(s2);
    Found(DbForm(db, width, byteOffset, tail))
  }

  // From the block number on.
  function MatchNumberedDb(s: string): Match<DbForm> {
    var (db, s1) :- NumberAt(SkipSpaces(s));
    var s2 :- Literal(SkipSpaces(s1), ".");
    var s3 :- Literal(SkipSpaces(s2), "DB");
    MatchField(db, s3)
  }

  function MatchDb(s: string): Match<DbForm> {
    var s1 :- Literal(SkipPercent(s), "DB");
    MatchNumberedDb(s1)
  }

  function KindName(kind: BlockKind): string {
    match kind
    case DbBlock => "DB" case Fb => "FB" case Fc => "FC" case Ob => "OB"
    case Sfb => "SFB" case Sfc => "SFC" case Udt => "UDT" case Vat => "VAT"
  }

  // No name begins another, so at most one of them can match.
  function MatchKind(s: string): Match<(BlockKind, string)> {
    if Literal(s, "DB").Found? then Found((DbBlock, s[2..]))
    else if Literal(s, "FB").Found? then Found((Fb, s[2..]))
    else if Literal(s, "FC").Found? then Found((Fc, s[2..]))
    else if Literal(s, "OB").Found? then Found((Ob, s[2..]))
    else if Literal(s, "SFB").Found? then Found((Sfb, s[3..]))
    else if Literal(s, "SFC").Found? then Found((Sfc, s[3..]))
    else if Literal(s, "UDT").Found? then Found((Udt, s[3..]))
    else if Literal(s, "VAT").Found? then Found((Vat, s[3..]))
    else NoMatch
  }

  function MatchBlock(s: string): Match<(BlockKind, nat)> {
    var (kind, s1) :- MatchKind(SkipPercent(s));
    var (n, rest) :- NumberAt(SkipSpaces(s1));
    if rest == "" then Found((kind, n)) else NoMatch
  }

  datatype SimpleForm = SimpleForm(letter: char, width: Match<char>, byteOffset: nat, tail: BitTail)

  // From the offset on.
  function MatchOffset(letter: char, width: Match<char>, s: string): Match<SimpleForm> {
    var (byteOffset, rest) :- NumberAt(SkipSpaces(s));
    var tail :- BitTailAt(rest);
    Found(SimpleForm(letter, width, byteOffset, tail))
  }

  // From the optional width letter on.
  function MatchWidth(letter: char, s: string): Match<SimpleForm> {
    var w := Letter(s, "BWDX");
    if w.Found? then MatchOffset(letter, Found(w.value.0), w.value.1) else MatchOffset(letter, NoMatch, s)
  }

  function MatchSimple(s: string): Match<SimpleForm> {
    var (letter, s1) :- Letter(SkipPercent(s), "IEQAMF");
    MatchWidth(letter, SkipSpaces(s1))
  }

  function MatchTimerOrCounter(s: string): Match<(char, nat)> {
    var (letter, s1) :- Letter(SkipPercent(s), "TCZ");
    var (n, rest) :- NumberAt(SkipSpaces(s1));
    if rest == "" then Found((letter, n)) else NoMatch
  }

  function ImpliedType(width: char): DataType {
    if width == 'B' then BYTE else if width == 'W' then WORD else if width == 'D' then DWORD else BOOL
  }

  function AreaOfLetter(letter: char): Area {
    if letter in "IE" then Input else if letter in "QA" then Output else Merker
  }

  function TailBit(tail: BitTail): nat {
    if tail.Bit? then tail.bit else 0
  }

  function ResolveDb(f: DbForm): AddressResult {
    if (f.width == 'X') != f.tail.Bit? then AddressError
    else Parsed(ParsedAddress(DbArea, f.db, f.byteOffset, TailBit(f.tail), ImpliedType(f.width)))
  }

  function ResolveSimple(f: SimpleForm): AddressResult {
    var isBit := f.width.NoMatch? || f.width.value == 'X';
    if isBit != f.tail.Bit? then AddressError
    else if TailBit(f.tail) > 7 then AddressError
    else Parsed(ParsedAddress(AreaOfLetter(f.letter), 0, f.byteOffset, TailBit(f.tail),
                              if isBit then BOOL else ImpliedType(f.width.value)))
  }

  // The text is already stripped.
  function ParseStripped(s: string): AddressResult {
    var db, block, simple, timer := MatchDb(s), MatchBlock(s), MatchSimple(s), MatchTimerOrCounter(s);
    if db.Found? then ResolveDb(db.value)
    else if block.Found? then
      Parsed(ParsedAddress(Block(block.value.0), block.value.1, 0, 0, BYTE))
    else if simple.Found? then ResolveSimple(simple.value)
    else if timer.Found? then
      Parsed(ParsedAddress(if timer.value.0 == 'T' then TimerArea else CounterArea,
                           timer.value.1, timer.value.1, 0, WORD))
    else AddressError
  }

  function ParseAddress(text: string): AddressResult {
    ParseStripped(Strip(text))
  }

  // ---------------------------------------------------------------- printing

  function WidthLetter(t: DataType): char {
    match t
    case WORD | INT | UINT => 'W'
    case DWORD | DINT | UDINT | REAL => 'D'
    case _ => 'B'
  }

  // DB<db>.DB<letter><byte><tail>
  function DbText(db: nat, letter: char, byteOffset: nat, tail: string): string {
    "DB" + (ToDecimal(db) + (".DB" + ([letter] + (ToDecimal(byteOffset) + tail))))
  }

  // <letter><width><byte><tail>
  function SimpleText(letter: char, width: string, byteOffset: nat, tail: string): string {
    [letter] + (width + (ToDecimal(byteOffset) + tail))
  }

  function BitSuffix(bit: nat): string { "." + ToDecimal(bit) }

  function AreaLetter(area: Area): char
    requires area in {Input, Output, Merker}
  {
    match area
    case Input => 'I' case Output => 'Q' case _ => 'M'
  }

  function AreaName(area: Area): string
    requires !area.Mirrored()
  {
    match area
    case TimerArea => "T"
    case CounterArea => "C"
    case Block(kind) => KindName(kind)
  }

  function Canonical(p: ParsedAddress): string {
    if !p.Supported() then
      AreaName(p.area) + ToDecimal(if p.db != 0 then p.db else p.byteOffset)
    else if p.area == DbArea then
      if p.IsBit() then DbText(p.db, 'X', p.byteOffset, BitSuffix(p.bitOffset))
      else DbText(p.db, WidthLetter(p.implied), p.byteOffset, "")
    else if p.IsBit() then SimpleText(AreaLetter(p.area), "", p.byteOffset, BitSuffix(p.bitOffset))
    else SimpleText(AreaLetter(p.area), [WidthLetter(p.implied)], p.byteOffset, "")
  }

  // ---------------------------------------------------------------- what parsing can yield

  predicate Printable(p: ParsedAddress) {
    match p.area
    case DbArea =>
      p.implied in {BOOL, BYTE, WORD, DWORD} && (p.implied != BOOL ==> p.bitOffset == 0)
    case Input | Output | Merker =>
      p.implied in {BOOL, BYTE, WORD, DWORD} && (p.implied != BOOL ==> p.bitOffset == 0)
      && p.db == 0 && p.bitOffset <= 7
    case TimerArea | CounterArea =>
      p.db == p.byteOffset && p.bitOffset == 0 && p.implied == WORD
    case Block(_) =>
      p.byteOffset == 0 && p.bitOffset == 0 && p.implied == BYTE
  }

  lemma {:induction false} DbFormWidth(s: string)
    ensures MatchDb(s).Found? ==> MatchDb(s).value.width in {'X', 'B', 'W', 'D'}
  {
  }

  lemma {:induction false} SimpleFormWidth(s: string)
    ensures MatchSimple(s).Found? && MatchSimple(s).value.width.Found? ==>
              MatchSimple(s).value.width.value in {'X', 'B', 'W', 'D'}
  {
  }

  lemma {:induction false} FormsYieldPrintable(db: DbForm, simple: SimpleForm)
    ensures db.width in {'X', 'B', 'W', 'D'} && ResolveDb(db).Parsed? ==> Printable(ResolveDb(db).address)
    ensures (simple.width.Found? ==> simple.width.value in {'X', 'B', 'W', 'D'}) && ResolveSimple(simple).Parsed? ==>
              Printable(ResolveSimple(simple).address)
  {
  }

  lemma {:induction false} ParsingYieldsPrintable(text: string)
    ensures ParseAddress(text).Parsed? ==> Printable(ParseAddress(text).address)
  {
    var s := Strip(text);
    DbFormWidth(s);
    SimpleFormWidth(s);
    if MatchDb(s).Found? {
      FormsYieldPrintable(MatchDb(s).value, SimpleForm('I', NoMatch, 0, NoBit));
    } else if MatchSimple(s).Found? {
      FormsYieldPrintable(DbForm(0, 'B', 0, NoBit), MatchSimple(s).value);
    }
  }

  // ---------------------------------------------------------------- reading back what was printed

  lemma {:induction false} NumberAtPrinted(n: nat, rest: string)
    requires rest == "" || !IsDigit(rest[0])
    ensures NumberAt(ToDecimal(n) + rest) == Found((n, rest))
  {
    DigitPrefixIs(ToDecimal(n), rest);
    DecimalRoundTrip(n);
    assert (ToDecimal(n) + rest)[|ToDecimal(n)|..] == rest;
  }

  lemma {:induction false} BitTailPrinted(bit: nat)
    ensures BitTailAt("." + ToDecimal(bit)) == Found(Bit(bit))
  {
    NumberAtPrinted(bit, "");
    assert ToDecimal(bit) + "" == ToDecimal(bit);
    assert ("." + ToDecimal(bit))[1..] == ToDecimal(bit);
  }

  lemma {:induction false} FieldPrinted(db: nat, letter: char, byteOffset: nat, tailText: string)
    requires letter in {'X', 'B', 'W', 'D'} && (tailText == "" || !IsDigit(tailText[0]))
    ensures MatchField(db, [letter] + (ToDecimal(byteOffset) + tailText))
            == if BitTailAt(tailText).Found? then Found(DbForm(db, letter, byteOffset, BitTailAt(tailText).value))
               else NoMatch
  {
    NumberAtPrinted(byteOffset, tailText);
    var s := [letter] + (ToDecimal(byteOffset) + tailText);
    assert Upper(letter) == letter;
    assert Letter(s, "XBWD") == Found((letter, ToDecimal(byteOffset) + tailText));
  }

  lemma {:induction false} DotAndDbPrinted(field: string)
    ensures Literal(".DB" + field, ".") == Found("DB" + field) && Literal("DB" + field, "DB") == Found(field)
    ensures SkipSpaces(".DB" + field) == ".DB" + field && SkipSpaces("DB" + field) == "DB" + field
  {
    assert (".DB" + field)[1..] == "DB" + field;
    assert ("DB" + field)[2..] == field;
  }

  lemma {:induction false} NumberStartsPlain(n: nat, rest: string)
    ensures SkipSpaces(ToDecimal(n) + rest) == ToDecimal(n) + rest
  {
    assert IsDigit((ToDecimal(n) + rest)[0]);
  }

  lemma {:induction false} NumberedDbPrinted(db: nat, field: string)
    requires field != "" && !IsSpace(field[0])
    ensures MatchNumberedDb(ToDecimal(db) + (".DB" + field)) == MatchField(db, field)
  {
    NumberAtPrinted(db, ".DB" + field);
    NumberStartsPlain(db, ".DB" + field);
    DotAndDbPrinted(field);
  }

  lemma {:induction false} MatchDbPrinted(db: nat, letter: char, byteOffset: nat, tail: string)
    requires letter in {'X', 'B', 'W', 'D'} && (tail == "" || !IsDigit(tail[0]))
    ensures MatchDb(DbText(db, letter, byteOffset, tail))
            == if BitTailAt(tail).Found? then Found(DbForm(db, letter, byteOffset, BitTailAt(tail).value)) else NoMatch
  {
    var field := [letter] + (ToDecimal(byteOffset) + tail);
    FieldPrinted(db, letter, byteOffset, tail);
    NumberedDbPrinted(db, field);
    var s1 := ToDecimal(db) + (".DB" + field);
    assert Literal("DB" + s1, "DB") == Found(s1) by {
      assert ("DB" + s1)[2..] == s1;
    }
  }

  predicate EndsInDigit(s: string) { s != "" && IsDigit(s[|s| - 1]) }

  lemma {:induction false} NumberEndsInDigit(before: string, n: nat, tail: string)
    requires tail == "" || EndsInDigit(tail)
    ensures EndsInDigit(before + (ToDecimal(n) + tail))
  {
    var s := before + (ToDecimal(n) + tail);
    if tail == "" {
      assert s[|s| - 1] == ToDecimal(n)[|ToDecimal(n)| - 1];
    } else {
      assert s[|s| - 1] == tail[|tail| - 1];
    }
  }

  lemma {:induction false} StripPrinted(s: string)
    requires EndsInDigit(s) && !IsSpace(s[0])
    ensures Strip(s) == s
  {
  }

  lemma {:induction false} DbTextStrips(db: nat, letter: char, byteOffset: nat, tail: string)
    requires tail == "" || EndsInDigit(tail)
    ensures Strip(DbText(db, letter, byteOffset, tail)) == DbText(db, letter, byteOffset, tail)
  {
    var s := DbText(db, letter, byteOffset, tail);
    var front := "DB" + (ToDecimal(db) + (".DB" + [letter]));
    NumberEndsInDigit(front, byteOffset, tail);
    assert s == front + (ToDecimal(byteOffset) + tail);
    StripPrinted(s);
  }

  // The first letter rules out every form that cannot begin with it.
  lemma {:induction false} FirstLetterDecides(s: string)
    requires s != "" && s[0] != '%'
    ensures Upper(s[0]) != 'D' ==> MatchDb(s).NoMatch?
    ensures Upper(s[0]) !in {'D', 'F', 'O', 'S', 'U', 'V'} ==> MatchBlock(s).NoMatch?
    ensures Upper(s[0]) !in {'I', 'E', 'Q', 'A', 'M', 'F'} ==> MatchSimple(s).NoMatch?
    ensures Upper(s[0]) !in {'T', 'C', 'Z'} ==> MatchTimerOrCounter(s).NoMatch?
  {
  }

  lemma {:induction false} BlockEndsWithItsNumber(db: nat, rest: string)
    requires rest != "" && !IsDigit(rest[0])
    ensures MatchBlock("DB" + (ToDecimal(db) + rest)).NoMatch?
  {
    var s1 := ToDecimal(db) + rest;
    NumberAtPrinted(db, rest);
    assert ("DB" + s1)[2..] == s1;
    assert MatchKind("DB" + s1) == Found((DbBlock, s1));
  }

  lemma {:induction false} ParseDbText(db: nat, letter: char, byteOffset: nat, tail: string)
    requires letter in {'X', 'B', 'W', 'D'}
    requires tail == "" || (EndsInDigit(tail) && !IsDigit(tail[0]))
    ensures ParseAddress(DbText(db, letter, byteOffset, tail))
            == if BitTailAt(tail).Found? then ResolveDb(DbForm(db, letter, byteOffset, BitTailAt(tail).value))
               else AddressError
  {
    DbTextStrips(db, letter, byteOffset, tail);
    MatchDbPrinted(db, letter, byteOffset, tail);
    BlockEndsWithItsNumber(db, ".DB" + ([letter] + (ToDecimal(byteOffset) + tail)));
    FirstLetterDecides(DbText(db, letter, byteOffset, tail));
  }

  lemma {:induction false} OffsetPrinted(letter: char, width: Match<char>, byteOffset: nat, tail: string)
    requires tail == "" || !IsDigit(tail[0])
    requires BitTailAt(tail).Found?
    ensures MatchOffset(letter, width, ToDecimal(byteOffset) + tail)
            == Found(SimpleForm(letter, width, byteOffset, BitTailAt(tail).value))
  {
    NumberAtPrinted(byteOffset, tail);
    assert IsDigit((ToDecimal(byteOffset) + tail)[0]);
  }

  lemma {:induction false} WidthPrinted(letter: char, width: string, number: string)
    requires width == "" || width in {"B", "W", "D"}
    requires number != "" && IsDigit(number[0])
    ensures MatchWidth(letter, width + number)
            == MatchOffset(letter, if width == "" then NoMatch else Found(width[0]), number)
  {
    var s := width + number;
    if width == "" {
      assert s == number;
      assert Letter(s, "BWDX").NoMatch?;
    } else {
      assert s[1..] == number;
      assert Letter(s, "BWDX") == Found((width[0], number));
    }
  }

  lemma {:induction false} MatchSimplePrinted(letter: char, width: string, byteOffset: nat, tail: string)
    requires letter in {'I', 'Q', 'M'} && (width == "" || width in {"B", "W", "D"})
    requires tail == "" || !IsDigit(tail[0])
    requires BitTailAt(tail).Found?
    ensures MatchSimple(SimpleText(letter, width, byteOffset, tail))
            == Found(SimpleForm(letter, if width == "" then NoMatch else Found(width[0]), byteOffset,
                                BitTailAt(tail).value))
  {
    var number := ToDecimal(byteOffset) + tail;
    var s1 := width + number;
    WidthPrinted(letter, width, number);
    OffsetPrinted(letter, if width == "" then NoMatch else Found(width[0]), byteOffset, tail);
    assert s1[0] == if width == "" then number[0] else width[0];
    LetterPrinted(letter, s1, "IEQAMF");
  }

  lemma {:induction false} ParseSimpleText(letter: char, width: string, byteOffset: nat, tail: string)
    requires letter in {'I', 'Q', 'M'} && (width == "" || width in {"B", "W", "D"})
    requires tail == "" || (EndsInDigit(tail) && !IsDigit(tail[0]))
    requires BitTailAt(tail).Found?
    ensures ParseAddress(SimpleText(letter, width, byteOffset, tail))
            == ResolveSimple(SimpleForm(letter, if width == "" then NoMatch else Found(width[0]), byteOffset,
                                        BitTailAt(tail).value))
  {
    var s := SimpleText(letter, width, byteOffset, tail);
    NumberEndsInDigit([letter] + width, byteOffset, tail);
    assert s == ([letter] + width) + (ToDecimal(byteOffset) + tail);
    StripPrinted(s);
    MatchSimplePrinted(letter, width, byteOffset, tail);
    FirstLetterDecides(s);
  }

  lemma {:induction false} ParseBitSuffix(bit: nat)
    ensures EndsInDigit(BitSuffix(bit)) && BitTailAt(BitSuffix(bit)) == Found(Bit(bit))
  {
    BitTailPrinted(bit);
    NumberEndsInDigit(".", bit, "");
    assert ToDecimal(bit) + "" == ToDecimal(bit);
  }

  lemma {:induction false} LiteralPrinted(name: string, rest: string)
    requires forall i :: 0 <= i < |name| ==> Upper(name[i]) == name[i]
    ensures Literal(name + rest, name) == Found(rest)
  {
    assert (name + rest)[|name|..] == rest;
  }

  lemma {:induction false} LiteralDiffers(s: string, name: string, i: nat)
    requires i < |name| && i < |s| && Upper(s[i]) != name[i]
    ensures Literal(s, name).NoMatch?
  {
  }

  lemma {:induction false} MatchKindPrinted(kind: BlockKind, rest: string)
    requires rest != "" && IsDigit(rest[0])
    ensures MatchKind(KindName(kind) + rest) == Found((kind, rest))
  {
    var s := KindName(kind) + rest;
    LiteralPrinted(KindName(kind), rest);
    if s[0] != 'D' { LiteralDiffers(s, "DB", 0); }
    if s[0] != 'F' {
      LiteralDiffers(s, "FB", 0);
      LiteralDiffers(s, "FC", 0);
    } else if kind == Fc {
      LiteralDiffers(s, "FB", 1);
    }
    if s[0] != 'O' { LiteralDiffers(s, "OB", 0); }
    if s[0] != 'S' {
      LiteralDiffers(s, "SFB", 0);
      LiteralDiffers(s, "SFC", 0);
    } else if kind == Sfc {
      LiteralDiffers(s, "SFB", 2);
    }
    if s[0] != 'U' { LiteralDiffers(s, "UDT", 0); }
  }

  lemma {:induction false} MatchBlockPrinted(kind: BlockKind, n: nat)
    ensures MatchBlock(KindName(kind) + ToDecimal(n)) == Found((kind, n))
  {
    var d := ToDecimal(n);
    assert d + "" == d;
    MatchKindPrinted(kind, d);
    NumberAtPrinted(n, "");
    NumberHasNoSpace(n);
  }

  lemma {:induction false} BlockIsNoDbForm(kind: BlockKind, n: nat)
    ensures MatchDb(KindName(kind) + ToDecimal(n)).NoMatch?
  {
    var d := ToDecimal(n);
    assert d + "" == d;
    NumberAtPrinted(n, "");
    NumberHasNoSpace(n);
    if kind == DbBlock {
      assert ("DB" + d)[2..] == d;
    }
  }

  lemma {:induction false} ParseBlockText(kind: BlockKind, n: nat)
    ensures ParseAddress(KindName(kind) + ToDecimal(n)) == Parsed(ParsedAddress(Block(kind), n, 0, 0, BYTE))
  {
    var s := KindName(kind) + ToDecimal(n);
    NumberEndsInDigit(KindName(kind), n, "");
    assert ToDecimal(n) + "" == ToDecimal(n);
    StripPrinted(s);
    MatchBlockPrinted(kind, n);
    BlockIsNoDbForm(kind, n);
  }

  lemma {:induction false} NumberHasNoSpace(n: nat)
    ensures SkipSpaces(ToDecimal(n)) == ToDecimal(n)
  {
    assert IsDigit(ToDecimal(n)[0]);
  }

  lemma {:induction false} LetterPrinted(letter: char, rest: string, letters: string)
    requires letter in letters && Upper(letter) == letter && letter != '%' && !IsSpace(letter)
    ensures var s := [letter] + rest;
            s[0] == letter && SkipPercent(s) == s && SkipSpaces(s) == s && Letter(s, letters) == Found((letter, rest))
  {
    assert ([letter] + rest)[1..] == rest;
  }

  lemma {:induction false} MatchTimerPrinted(letter: char, n: nat)
    requires letter in {'T', 'C'}
    ensures MatchTimerOrCounter([letter] + ToDecimal(n)) == Found((letter, n))
  {
    var d := ToDecimal(n);
    assert d + "" == d;
    NumberAtPrinted(n, "");
    NumberHasNoSpace(n);
    LetterPrinted(letter, d, "TCZ");
  }

  lemma {:induction false} ParseTimerText(letter: char, n: nat)
    requires letter in {'T', 'C'}
    ensures ParseAddress([letter] + ToDecimal(n))
            == Parsed(ParsedAddress(if letter == 'T' then TimerArea else CounterArea, n, n, 0, WORD))
  {
    var s := [letter] + ToDecimal(n);
    NumberEndsInDigit([letter], n, "");
    assert ToDecimal(n) + "" == ToDecimal(n);
    StripPrinted(s);
    FirstLetterDecides(s);
    MatchTimerPrinted(letter, n);
  }

  lemma {:induction false} CanonicalDbParsesBack(p: ParsedAddress)
    requires Printable(p) && p.area == DbArea
    ensures ParseAddress(Canonical(p)) == Parsed(p)
  {
    if p.IsBit() {
      ParseBitSuffix(p.bitOffset);
      ParseDbText(p.db, 'X', p.byteOffset, BitSuffix(p.bitOffset));
    } else {
      ParseDbText(p.db, WidthLetter(p.implied), p.byteOffset, "");
    }
  }

  lemma {:induction false} SimpleFormReads(p: ParsedAddress)
    requires Printable(p) && p.area in {Input, Output, Merker}
    ensures ResolveSimple(SimpleForm(AreaLetter(p.area), if p.IsBit() then NoMatch else Found(WidthLetter(p.implied)),
                                     p.byteOffset, if p.IsBit() then Bit(p.bitOffset) else NoBit))
            == Parsed(p)
    ensures WidthLetter(p.implied) in {'B', 'W', 'D'}
  {
  }

  lemma {:induction false} CanonicalSimpleParsesBack(p: ParsedAddress)
    requires Printable(p) && p.area in {Input, Output, Merker}
    ensures ParseAddress(Canonical(p)) == Parsed(p)
  {
    SimpleFormReads(p);
    if p.IsBit() {
      ParseBitSuffix(p.bitOffset);
      ParseSimpleText(AreaLetter(p.area), "", p.byteOffset, BitSuffix(p.bitOffset));
    } else {
      ParseSimpleText(AreaLetter(p.area), [WidthLetter(p.implied)], p.byteOffset, "");
    }
  }

  // Every address parsing can yield prints to a text that parses back to it.
  lemma {:induction false} CanonicalParsesBack(p: ParsedAddress)
    requires Printable(p)
    ensures ParseAddress(Canonical(p)) == Parsed(p)
  {
    match p.area
    case DbArea => CanonicalDbParsesBack(p);
    case Input | Output | Merker => CanonicalSimpleParsesBack(p);
    case TimerArea => ParseTimerText('T', p.db);
    case CounterArea => ParseTimerText('C', p.db);
    case Block(kind) => ParseBlockText(kind, p.db);
  }

  // For any text in any accepted spelling: the canonical form of what was read reads the same.
  lemma {:induction false} CanonicalisationIsFaithful(text: string)
    ensures ParseAddress(text).Parsed? ==> ParseAddress(Canonical(ParseAddress(text).address)) == ParseAddress(text)
  {
    ParsingYieldsPrintable(text);
    if ParseAddress(text).Parsed? {
      CanonicalParsesBack(ParseAddress(text).address);
    }
  }

  // ---------------------------------------------------------------- German letters

  lemma {:induction false} StripAfterLetter(letter: char, rest: string)
    requires !IsSpace(letter)
    ensures Strip([letter] + rest) == [letter] + DropTrailingSpaces(rest)
    decreases |rest|
  {
    var s := [letter] + rest;
    if rest != "" && IsSpace(rest[|rest| - 1]) {
      StripAfterLetter(letter, rest[..|rest| - 1]);
      assert s[..|s| - 1] == [letter] + rest[..|rest| - 1];
    }
  }

  function ResolveMatch(m: Match<SimpleForm>): AddressResult {
    match m
    case Found(form) => ResolveSimple(form)
    case NoMatch => AddressError
  }

  lemma {:induction false} SameAreaResolvesAlike(a: char, b: char, s: string)
    requires AreaOfLetter(a) == AreaOfLetter(b)
    ensures ResolveMatch(MatchWidth(a, s)) == ResolveMatch(MatchWidth(b, s))
  {
  }

  lemma {:induction false} SimpleAfterLetter(letter: char, rest: string)
    requires letter in "IEQA"
    ensures ParseStripped([letter] + rest) == ResolveMatch(MatchWidth(letter, SkipSpaces(rest)))
  {
    FirstLetterDecides([letter] + rest);
    LetterPrinted(letter, rest, "IEQAMF");
  }

  lemma {:induction false} CounterAfterLetter(letter: char, rest: string)
    requires letter in "CZ"
    ensures ParseStripped([letter] + rest)
            == match NumberAt(SkipSpaces(rest))
               case Found((n, tail)) =>
                 if tail == "" then Parsed(ParsedAddress(CounterArea, n, n, 0, WORD)) else AddressError
               case NoMatch => AddressError
  {
    FirstLetterDecides([letter] + rest);
    LetterPrinted(letter, rest, "TCZ");
  }

  lemma {:induction false} SameAreaReadsAlike(a: char, b: char, rest: string)
    requires a in "IEQA" && b in "IEQA" && AreaOfLetter(a) == AreaOfLetter(b)
    ensures ParseAddress([a] + rest) == ParseAddress([b] + rest)
  {
    var s := DropTrailingSpaces(rest);
    StripAfterLetter(a, rest);
    StripAfterLetter(b, rest);
    SimpleAfterLetter(a, s);
    SimpleAfterLetter(b, s);
    SameAreaResolvesAlike(a, b, SkipSpaces(s));
  }

  lemma {:induction false} CountersReadAlike(rest: string)
    ensures ParseAddress("Z" + rest) == ParseAddress("C" + rest)
  {
    var s := DropTrailingSpaces(rest);
    StripAfterLetter('Z', rest);
    StripAfterLetter('C', rest);
    CounterAfterLetter('Z', s);
    CounterAfterLetter('C', s);
  }

  // Whatever follows, E reads as I (Eingang), A as Q (Ausgang) and Z as C (Zaehler).
  lemma {:induction false} GermanLettersReadAlike(rest: string)
    ensures ParseAddress("E" + rest) == ParseAddress("I" + rest)
    ensures ParseAddress("A" + rest) == ParseAddress("Q" + rest)
    ensures ParseAddress("Z" + rest) == ParseAddress("C" + rest)
  {
    SameAreaReadsAlike('E', 'I', rest);
    SameAreaReadsAlike('A', 'Q', rest);
    CountersReadAlike(rest);
  }
}
