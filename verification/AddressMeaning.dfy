// What address texts mean: every letter by its name, in either case.
module AddressMeaning {
  import opened Wrappers
  import opened Decoding
  import opened S7Types
  import opened Decimal
  import opened Addressing
  import opened DbLayout
  import opened LayoutLaws
  import opened MemberAddresses

  // ---------------------------------------------------------------- either case

  predicate SameOrOtherCase(a: char, b: char) {
    || a == b
    || ('a' <= a <= 'z' && b as int == a as int - 32)
    || ('a' <= b <= 'z' && a as int == b as int - 32)
  }

  predicate CaseVariant(a: string, b: string) {
    |a| == |b| && forall i :: 0 <= i < |a| ==> SameOrOtherCase(a[i], b[i])
  }

  lemma {:induction false} CharacterAlike(a: char, b: char)
    requires SameOrOtherCase(a, b)
    ensures Upper(a) == Upper(b) && (IsSpace(a) <==> IsSpace(b)) && (IsDigit(a) <==> IsDigit(b))
    ensures IsDigit(a) || a == '%' || a == '.' || b == '%' || b == '.' ==> a == b
  {
  }

  lemma {:induction false} TailAlike(a: string, b: string, n: nat)
    requires CaseVariant(a, b) && n <= |a|
    ensures CaseVariant(a[n..], b[n..]) && CaseVariant(a[..n], b[..n])
  {
  }

  lemma {:induction false} SkipSpacesAlike(a: string, b: string)
    requires CaseVariant(a, b)
    ensures CaseVariant(SkipSpaces(a), SkipSpaces(b))
    decreases |a|
  {
    if a != "" {
      CharacterAlike(a[0], b[0]);
      TailAlike(a, b, 1);
      SkipSpacesAlike(a[1..], b[1..]);
    }
  }

  lemma {:induction false} DropTrailingSpacesAlike(a: string, b: string)
    requires CaseVariant(a, b)
    ensures CaseVariant(DropTrailingSpaces(a), DropTrailingSpaces(b))
    decreases |a|
  {
    if a != "" {
      var last := |a| - 1;
      CharacterAlike(a[last], b[last]);
      TailAlike(a, b, last);
      DropTrailingSpacesAlike(a[..last], b[..last]);
    }
  }

  lemma {:induction false} SkipPercentAlike(a: string, b: string)
    requires CaseVariant(a, b)
    ensures CaseVariant(SkipPercent(a), SkipPercent(b))
  {
    if a != "" {
      CharacterAlike(a[0], b[0]);
      TailAlike(a, b, 1);
    }
  }

  // Both match, with texts left that differ in case at most, or neither does.
  predicate RestsAlike<T(==)>(a: Match<(T, string)>, b: Match<(T, string)>) {
    (a.Found? <==> b.Found?) && (a.Found? ==> a.value.0 == b.value.0 && CaseVariant(a.value.1, b.value.1))
  }

  predicate TextsAlike(a: Match<string>, b: Match<string>) {
    (a.Found? <==> b.Found?) && (a.Found? ==> CaseVariant(a.value, b.value))
  }

  lemma {:induction false} LiteralAlike(a: string, b: string, literal: string)
    requires CaseVariant(a, b)
    ensures TextsAlike(Literal(a, literal), Literal(b, literal))
  {
    forall i | 0 <= i < |a|
      ensures Upper(a[i]) == Upper(b[i])
    {
      CharacterAlike(a[i], b[i]);
    }
    if |a| >= |literal| {
      TailAlike(a, b, |literal|);
    }
  }

  lemma {:induction false} LetterAlike(a: string, b: string, letters: string)
    requires CaseVariant(a, b)
    ensures RestsAlike(Letter(a, letters), Letter(b, letters))
  {
    if a != "" {
      CharacterAlike(a[0], b[0]);
      TailAlike(a, b, 1);
    }
  }

  lemma {:induction false} DigitPrefixAlike(a: string, b: string)
    requires CaseVariant(a, b)
    ensures DigitPrefix(a) == DigitPrefix(b)
    decreases |a|
  {
    if a != "" {
      CharacterAlike(a[0], b[0]);
      TailAlike(a, b, 1);
      DigitPrefixAlike(a[1..], b[1..]);
    }
  }

  lemma {:induction false} NumberAlike(a: string, b: string)
    requires CaseVariant(a, b)
    ensures RestsAlike(NumberAt(a), NumberAt(b))
  {
    DigitPrefixAlike(a, b);
    TailAlike(a, b, |DigitPrefix(a)|);
  }

  lemma {:induction false} SpacedNumberAlike(a: string, b: string)
    requires CaseVariant(a, b)
    ensures RestsAlike(NumberAt(SkipSpaces(a)), NumberAt(SkipSpaces(b)))
  {
    SkipSpacesAlike(a, b);
    NumberAlike(SkipSpaces(a), SkipSpaces(b));
  }

  lemma {:induction false} BitTailAlike(a: string, b: string)
    requires CaseVariant(a, b)
    ensures BitTailAt(a) == BitTailAt(b)
  {
    if a != "" {
      CharacterAlike(a[0], b[0]);
      TailAlike(a, b, 1);
      NumberAlike(a[1..], b[1..]);
    }
  }

  lemma {:induction false} FieldAlike(db: nat, a: string, b: string)
    requires CaseVariant(a, b)
    ensures MatchField(db, a) == MatchField(db, b)
  {
    LetterAlike(a, b, "XBWD");
    var x, y := Letter(a, "XBWD"), Letter(b, "XBWD");
    if x.Found? {
      SpacedNumberAlike(x.value.1, y.value.1);
      var m, n := NumberAt(SkipSpaces(x.value.1)), NumberAt(SkipSpaces(y.value.1));
      if m.Found? {
        BitTailAlike(m.value.1, n.value.1);
      }
    }
  }

  lemma {:induction false} SpacedLiteralAlike(a: string, b: string, literal: string)
    requires CaseVariant(a, b)
    ensures TextsAlike(Literal(SkipSpaces(a), literal), Literal(SkipSpaces(b), literal))
  {
    SkipSpacesAlike(a, b);
    LiteralAlike(SkipSpaces(a), SkipSpaces(b), literal);
  }

  lemma {:induction false} NumberedDbAlike(a: string, b: string)
    requires CaseVariant(a, b)
    ensures MatchNumberedDb(a) == MatchNumberedDb(b)
  {
    SpacedNumberAlike(a, b);
    var m, n := NumberAt(SkipSpaces(a)), NumberAt(SkipSpaces(b));
    if m.Found? {
      SpacedLiteralAlike(m.value.1, n.value.1, ".");
      var p, q := Literal(SkipSpaces(m.value.1), "."), Literal(SkipSpaces(n.value.1), ".");
      if p.Found? {
        SpacedLiteralAlike(p.value, q.value, "DB");
        var u, v := Literal(SkipSpaces(p.value), "DB"), Literal(SkipSpaces(q.value), "DB");
        if u.Found? {
          FieldAlike(m.value.0, u.value, v.value);
        }
      }
    }
  }

  lemma {:induction false} DbAlike(a: string, b: string)
    requires CaseVariant(a, b)
    ensures MatchDb(a) == MatchDb(b)
  {
    SkipPercentAlike(a, b);
    LiteralAlike(SkipPercent(a), SkipPercent(b), "DB");
    var x, y := Literal(SkipPercent(a), "DB"), Literal(SkipPercent(b), "DB");
    if x.Found? {
      NumberedDbAlike(x.value, y.value);
    }
  }

  lemma {:induction false} KindAlike(a: string, b: string)
    requires CaseVariant(a, b)
    ensures RestsAlike(MatchKind(a), MatchKind(b))
  {
    LiteralAlike(a, b, "DB");
    LiteralAlike(a, b, "FB");
    LiteralAlike(a, b, "FC");
    LiteralAlike(a, b, "OB");
    LiteralAlike(a, b, "SFB");
    LiteralAlike(a, b, "SFC");
    LiteralAlike(a, b, "UDT");
    LiteralAlike(a, b, "VAT");
  }

  lemma {:induction false} BlockAlike(a: string, b: string)
    requires CaseVariant(a, b)
    ensures MatchBlock(a) == MatchBlock(b)
  {
    SkipPercentAlike(a, b);
    KindAlike(SkipPercent(a), SkipPercent(b));
    var x, y := MatchKind(SkipPercent(a)), MatchKind(SkipPercent(b));
    if x.Found? {
      SpacedNumberAlike(x.value.1, y.value.1);
    }
  }

  lemma {:induction false} OffsetAlike(letter: char, width: Match<char>, a: string, b: string)
    requires CaseVariant(a, b)
    ensures MatchOffset(letter, width, a) == MatchOffset(letter, width, b)
  {
    SpacedNumberAlike(a, b);
    var m, n := NumberAt(SkipSpaces(a)), NumberAt(SkipSpaces(b));
    if m.Found? {
      BitTailAlike(m.value.1, n.value.1);
    }
  }

  lemma {:induction false} WidthAlike(letter: char, a: string, b: string)
    requires CaseVariant(a, b)
    ensures MatchWidth(letter, a) == MatchWidth(letter, b)
  {
    LetterAlike(a, b, "BWDX");
    var x, y := Letter(a, "BWDX"), Letter(b, "BWDX");
    if x.Found? {
      OffsetAlike(letter, Found(x.value.0), x.value.1, y.value.1);
    } else {
      OffsetAlike(letter, NoMatch, a, b);
    }
  }

  lemma {:induction false} SimpleAlike(a: string, b: string)
    requires CaseVariant(a, b)
    ensures MatchSimple(a) == MatchSimple(b)
  {
    SkipPercentAlike(a, b);
    LetterAlike(SkipPercent(a), SkipPercent(b), "IEQAMF");
    var x, y := Letter(SkipPercent(a), "IEQAMF"), Letter(SkipPercent(b), "IEQAMF");
    if x.Found? {
      SkipSpacesAlike(x.value.1, y.value.1);
      WidthAlike(x.value.0, SkipSpaces(x.value.1), SkipSpaces(y.value.1));
    }
  }

  lemma {:induction false} TimerAlike(a: string, b: string)
    requires CaseVariant(a, b)
    ensures MatchTimerOrCounter(a) == MatchTimerOrCounter(b)
  {
    SkipPercentAlike(a, b);
    LetterAlike(SkipPercent(a), SkipPercent(b), "TCZ");
    var x, y := Letter(SkipPercent(a), "TCZ"), Letter(SkipPercent(b), "TCZ");
    if x.Found? {
      SpacedNumberAlike(x.value.1, y.value.1);
    }
  }

  // Texts that differ in case only are the same address, or both none.
  lemma {:induction false} CaseDoesNotMatter(a: string, b: string)
    requires CaseVariant(a, b)
    ensures ParseAddress(a) == ParseAddress(b)
  {
    SkipSpacesAlike(a, b);
    DropTrailingSpacesAlike(SkipSpaces(a), SkipSpaces(b));
    var s, t := Strip(a), Strip(b);
    DbAlike(s, t);
    BlockAlike(s, t);
    SimpleAlike(s, t);
    TimerAlike(s, t);
  }

  // ---------------------------------------------------------------- letters

  // I, Q and M are inputs, outputs and merkers; B, W and D are 1, 2 and 4 bytes.
  lemma {:induction false} SimpleLettersMean(letter: char, width: char, byteOffset: nat)
    requires letter in {'I', 'Q', 'M'} && width in {'B', 'W', 'D'}
    ensures ParseAddress([letter] + ([width] + ToDecimal(byteOffset)))
            == Parsed(ParsedAddress(if letter == 'I' then Input else if letter == 'Q' then Output else Merker, 0,
                                    byteOffset, 0,
                                    if width == 'B' then BYTE else if width == 'W' then WORD else DWORD))
  {
    assert ToDecimal(byteOffset) + "" == ToDecimal(byteOffset);
    ParseSimpleText(letter, [width], byteOffset, "");
  }

  // Without a width letter, and with a bit number up to 7: a bit.
  lemma {:induction false} SimpleBitsMean(letter: char, byteOffset: nat, bit: nat)
    requires letter in {'I', 'Q', 'M'}
    ensures ParseAddress([letter] + ("" + (ToDecimal(byteOffset) + ("." + ToDecimal(bit)))))
            == if bit > 7 then AddressError
               else Parsed(ParsedAddress(if letter == 'I' then Input else if letter == 'Q' then Output else Merker, 0,
                                         byteOffset, bit, BOOL))
  {
    ParseBitSuffix(bit);
    ParseSimpleText(letter, "", byteOffset, BitSuffix(bit));
  }

  lemma {:induction false} DbLettersMean(db: nat, width: char, byteOffset: nat, bit: nat)
    requires width in {'B', 'W', 'D'}
    ensures ParseAddress("DB" + (ToDecimal(db) + (".DB" + ([width] + (ToDecimal(byteOffset) + "")))))
            == Parsed(ParsedAddress(DbArea, db, byteOffset, 0,
                                    if width == 'B' then BYTE else if width == 'W' then WORD else DWORD))
    ensures ParseAddress("DB" + (ToDecimal(db) + (".DB" + (['X'] + (ToDecimal(byteOffset) + ("." + ToDecimal(bit)))))))
            == Parsed(ParsedAddress(DbArea, db, byteOffset, bit, BOOL))
  {
    ParseDbText(db, width, byteOffset, "");
    ParseBitSuffix(bit);
    ParseDbText(db, 'X', byteOffset, BitSuffix(bit));
  }

  // A supported member's address names its width: a bit for a BOOL, else a word for two bytes, a
  // double word for four, and a byte.
  lemma {:induction false} MemberAddressNamesItsWidth(m: DbMember, db: nat)
    requires WellTyped(m) && m.Supported()
    ensures var r := ParseAddress(MemberAddress(m, db));
            && r.Parsed? && r.address.area == DbArea && r.address.db == db && r.address.byteOffset == m.byteOffset
            && r.address.implied == (if m.dataType == Some(BOOL) then BOOL
                                     else if m.size == 2 then WORD else if m.size == 4 then DWORD else BYTE)
  {
    MemberAddressParsesBack(m, db);
    if m.dataType == Some(BOOL) {
      DbLettersMean(db, 'B', m.byteOffset, m.bitOffset);
    } else {
      DbLettersMean(db, if m.size == 2 then 'W' else if m.size == 4 then 'D' else 'B', m.byteOffset, 0);
    }
  }
}
