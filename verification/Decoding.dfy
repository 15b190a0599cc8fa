// Values of the S7 element types inside raw memory: reading them, writing them, and what a
// write at one place leaves alone.
module Decoding {
  import opened Bytes

  datatype DataType =
    BOOL | BYTE | CHAR | WORD | DWORD | INT | DINT | UINT | UDINT | REAL | LREAL | STRING

  // REAL and LREAL are carried as their raw 4- and 8-byte patterns; text is a sequence of
  // code points.
  datatype Value = Flag(flag: bool) | Number(number: int) | Text(codes: seq<nat>) | Raw(pattern: seq<Byte>)

  datatype Error = BadBit | NegativeOffset | ShortBuffer | BadLength | OutOfRange | NotOneCharacter | NotCoercible

  datatype Result<+T> = Ok(value: T) | Err(error: Error)

  const MAX_STRING_LENGTH: int := 254

  function FixedWidth(t: DataType): nat
    requires t != STRING
  {
    match t
    case BOOL | BYTE | CHAR => 1
    case WORD | INT | UINT => 2
    case DWORD | DINT | UDINT | REAL => 4
    case LREAL => 8
  }

  function SizeOf(t: DataType, length: int): Result<nat> {
    if t == STRING then
      if 1 <= length <= MAX_STRING_LENGTH then Ok(length + 2) else Err(BadLength)
    else Ok(FixedWidth(t))
  }

  // ---------------------------------------------------------------- bits

  predicate BitSet(b: bv8, bit: nat)
    requires bit <= 7
  {
    (b >> (bit as bv8)) & 1 == 1
  }

  function WithBit(b: bv8, bit: nat, value: bool): bv8
    requires bit <= 7
  {
    var mask: bv8 := 1 << (bit as bv8);
    if value then b | mask else b & !mask
  }

  predicate BitOf(b: Byte, bit: nat)
    requires bit <= 7
  {
    BitSet(b as bv8, bit)
  }

  // Read-modify-write of one bit of a byte. The source also refuses a byte outside 0..255,
  // which the type Byte rules out.
  function ApplyBit(current: Byte, bit: int, value: bool): Result<Byte> {
    if 0 <= bit <= 7 then Ok(WithBit(current as bv8, bit, value) as Byte) else Err(BadBit)
  }

  lemma {:induction false} ApplyBitSetsOneBit(current: Byte, bit: nat, value: bool, other: nat)
    requires bit <= 7 && other <= 7
    ensures ApplyBit(current, bit, value).Ok?
    ensures BitOf(ApplyBit(current, bit, value).value, other)
            == if other == bit then value else BitOf(current, other)
  {
    WithBitSetsOneBit(current as bv8, bit, value, other);
    BitsOfByte(WithBit(current as bv8, bit, value));
  }

  lemma {:induction false} BitsOfByte(b: bv8)
    ensures (b as Byte) as bv8 == b
  {
  }

  lemma {:induction false} WithBitSetsOneBit(b: bv8, bit: nat, value: bool, other: nat)
    requires bit <= 7 && other <= 7
    ensures BitSet(WithBit(b, bit, value), other) == if other == bit then value else BitSet(b, other)
  {
    ShiftedMask(b, bit as bv8, other as bv8);
    SameShift(bit, other);
  }

  lemma {:induction false} ShiftedMask(b: bv8, i: bv8, j: bv8)
    requires i <= 7 && j <= 7
    ensures ((b | (1 << i)) >> j) & 1 == if i == j then 1 else (b >> j) & 1
    ensures ((b & !(1 << i)) >> j) & 1 == if i == j then 0 else (b >> j) & 1
  {
  }

  lemma {:induction false} SameShift(i: nat, j: nat)
    requires i <= 7 && j <= 7
    ensures (i as bv8 == j as bv8 <==> i == j) && i as bv8 <= 7
  {
    assert (i as bv8) as int == i && (j as bv8) as int == j;
  }

  // ---------------------------------------------------------------- decode

  predicate SpanFits(buffer: seq<Byte>, offset: int, width: nat) {
    0 <= offset && offset + width <= |buffer|
  }

  function SpanError(offset: int): Error {
    if offset < 0 then NegativeOffset else ShortBuffer
  }

  function Signed(n: nat, width: nat): int {
    if 2 * n < Pow256(width) then n else n - Pow256(width)
  }

  function DecodeScalar(t: DataType, raw: seq<Byte>): Value
    requires t !in {BOOL, CHAR, STRING}
  {
    if t in {REAL, LREAL} then Raw(raw)
    else if t in {INT, DINT} then Number(Signed(FromBigEndian(raw), |raw|))
    else Number(FromBigEndian(raw))
  }

  function CodesOf(raw: seq<Byte>): (codes: seq<nat>)
    ensures |codes| == |raw|
  {
    seq(|raw|, i requires 0 <= i < |raw| => raw[i] as nat)
  }

  function Min(a: int, b: int): int { if a < b then a else b }

  // The number of characters a STRING header announces, clamped as the source clamps it.
  function AnnouncedLength(declaredMax: nat, actual: nat, length: int): int {
    var limit := Min(Min(if declaredMax == 0 then length else declaredMax, length), MAX_STRING_LENGTH);
    if actual > limit then limit else actual
  }

  // `length` is the declared length of the tag; validation keeps it in 1..254.
  function DecodeString(buffer: seq<Byte>, offset: int, length: nat): Result<Value> {
    if !SpanFits(buffer, offset, 2) then Err(SpanError(offset))
    else
      var n := AnnouncedLength(buffer[offset] as nat, buffer[offset + 1] as nat, length);
      if !SpanFits(buffer, offset, 2 + n) then Err(ShortBuffer)
      else Ok(Text(CodesOf(buffer[offset + 2..offset + 2 + n])))
  }

  function Decode(buffer: seq<Byte>, t: DataType, offset: int, bit: int, length: nat): Result<Value> {
    match t
    case BOOL =>
      if !(0 <= bit <= 7) then Err(BadBit)
      else if !SpanFits(buffer, offset, 1) then Err(SpanError(offset))
      else Ok(Flag(BitOf(buffer[offset], bit)))
    case CHAR =>
      if !SpanFits(buffer, offset, 1) then Err(SpanError(offset))
      else Ok(Text([buffer[offset] as nat]))
    case STRING =>
      DecodeString(buffer, offset, length)
    case _ =>
      if !SpanFits(buffer, offset, FixedWidth(t)) then Err(SpanError(offset))
      else Ok(DecodeScalar(t, buffer[offset..offset + FixedWidth(t)]))
  }

  // ---------------------------------------------------------------- encode

  function Latin1(code: nat): Byte {
    if code <= 255 then code as Byte else 63
  }

  function Latin1Text(codes: seq<nat>): (raw: seq<Byte>)
    ensures |raw| == |codes|
  {
    seq(|codes|, i requires 0 <= i < |codes| => Latin1(codes[i]))
  }

  predicate InIntegerRange(t: DataType, n: int)
    requires t !in {BOOL, CHAR, STRING, REAL, LREAL}
  {
    match t
    case BYTE => 0 <= n <= 0xFF
    case WORD | UINT => 0 <= n <= 0xFFFF
    case INT => -0x8000 <= n <= 0x7FFF
    case DINT => -0x8000_0000 <= n <= 0x7FFF_FFFF
    case _ => 0 <= n <= 0xFFFF_FFFF
  }

  // Maximum length, current length, characters, padding.
  function StringImage(raw: seq<Byte>, length: nat): (image: seq<Byte>)
    requires |raw| <= length <= MAX_STRING_LENGTH
    ensures |image| == length + 2
  {
    [length as Byte, |raw| as Byte] + raw + Zeros(length - |raw|)
  }

  function EncodeString(codes: seq<nat>, length: int): Result<seq<Byte>> {
    if !(1 <= length <= MAX_STRING_LENGTH) then Err(BadLength)
    else
      var all := Latin1Text(codes);
      Ok(StringImage(if |all| <= length then all else all[..length], length))
  }

  function EncodeInteger(t: DataType, n: int): Result<seq<Byte>>
    requires t !in {BOOL, CHAR, STRING, REAL, LREAL}
  {
    if !InIntegerRange(t, n) then Err(OutOfRange)
    else
      var width := FixedWidth(t);
      assert n < 0 ==> n + Pow256(width) >= 0 by { PowersOf256(); }
      Ok(ToBigEndian(if n < 0 then n + Pow256(width) else n, width))
  }

  // Wire form of one value. Text-to-number and number-to-flag coercions happen before this
  // point; a value of another kind is a coercion that failed.
  function Encode(value: Value, t: DataType, length: int, bitSource: int): Result<seq<Byte>> {
    match t
    case BOOL =>
      if !(0 <= bitSource <= 7) then Err(BadBit)
      else if !value.Flag? then Err(NotCoercible)
      else Ok([(if value.flag then (1 as bv8) << bitSource else 0) as Byte])
    case CHAR =>
      if !value.Text? then Err(NotCoercible)
      else if |value.codes| != 1 then Err(NotOneCharacter)
      else Ok(Latin1Text(value.codes))
    case STRING =>
      if !value.Text? then Err(NotCoercible) else EncodeString(value.codes, length)
    case REAL | LREAL =>
      if !value.Raw? then Err(NotCoercible)
      else if |value.pattern| != FixedWidth(t) then Err(OutOfRange)
      else Ok(value.pattern)
    case _ =>
      if !value.Number? then Err(NotCoercible) else EncodeInteger(t, value.number)
  }

  lemma {:induction false} PowersOf256()
    ensures Pow256(1) == 0x100 && Pow256(2) == 0x1_0000 && Pow256(4) == 0x1_0000_0000
  {
    assert Pow256(1) == 256 * Pow256(0);
    assert Pow256(3) == 256 * Pow256(2);
  }

  // ---------------------------------------------------------------- what decode looks at

  // A span long enough for the type decodes without error, whatever bytes it holds -
  // including a STRING header that was never initialised.
  lemma {:induction false} DecodeNeverFailsInBounds(buffer: seq<Byte>, t: DataType, offset: int, bit: int, length: nat)
    requires 0 <= bit <= 7
    requires SizeOf(t, length).Ok? && SpanFits(buffer, offset, SizeOf(t, length).value)
    ensures Decode(buffer, t, offset, bit, length).Ok?
  {
  }

  // A value decodes the same wherever its bytes sit: nothing outside its span is looked at.
  lemma {:induction false} DecodeRelocates(before: seq<Byte>, own: seq<Byte>, after: seq<Byte>, t: DataType, bit: int,
                                           length: nat)
    requires SizeOf(t, length) == Ok(|own|)
    ensures Decode(before + own + after, t, |before|, bit, length) == Decode(own, t, 0, bit, length)
  {
    var buffer, at := before + own + after, |before|;
    assert buffer[at] == own[0];
    if t == STRING {
      assert buffer[at + 1] == own[1];
      var n := AnnouncedLength(own[0] as nat, own[1] as nat, length);
      assert buffer[at + 2..at + 2 + n] == own[2..2 + n];
    } else if t !in {BOOL, CHAR} {
      assert buffer[at..at + |own|] == own[0..|own|];
    }
  }

  lemma {:induction false} DecodeIsLocal(a: seq<Byte>, b: seq<Byte>, t: DataType, offset: nat, bit: int, length: nat)
    requires SizeOf(t, length).Ok?
    requires SpanFits(a, offset, SizeOf(t, length).value) && SpanFits(b, offset, SizeOf(t, length).value)
    requires a[offset..offset + SizeOf(t, length).value] == b[offset..offset + SizeOf(t, length).value]
    ensures Decode(a, t, offset, bit, length) == Decode(b, t, offset, bit, length)
  {
    var w := SizeOf(t, length).value;
    DecodeRelocates(a[..offset], a[offset..offset + w], a[offset + w..], t, bit, length);
    DecodeRelocates(b[..offset], b[offset..offset + w], b[offset + w..], t, bit, length);
    assert a == a[..offset] + a[offset..offset + w] + a[offset + w..];
    assert b == b[..offset] + b[offset..offset + w] + b[offset + w..];
  }

  // ---------------------------------------------------------------- write, then read

  // The values the type can hold, and so exactly the ones Encode accepts.
  predicate Representable(value: Value, t: DataType, length: int) {
    match t
    case BOOL => value.Flag?
    case CHAR => value.Text? && |value.codes| == 1
    case STRING => value.Text? && 1 <= length <= MAX_STRING_LENGTH
    case REAL | LREAL => value.Raw? && |value.pattern| == FixedWidth(t)
    case _ => value.Number? && InIntegerRange(t, value.number)
  }

  // What a reader sees after the write: unencodable characters became '?', and text longer
  // than the declared length was cut.
  function Stored(value: Value, t: DataType, length: nat): Value {
    if !(t in {CHAR, STRING} && value.Text?) then value
    else
      var codes := CodesOf(Latin1Text(value.codes));
      Text(if t == STRING && |codes| > length then codes[..length] else codes)
  }

  lemma {:induction false} EncodeAcceptsExactlyRepresentable(value: Value, t: DataType, length: int, bit: nat)
    requires bit <= 7
    ensures Encode(value, t, length, bit).Ok? <==> Representable(value, t, length)
    ensures Encode(value, t, length, bit).Ok? ==>
              SizeOf(t, length) == Ok(|Encode(value, t, length, bit).value|)
  {
  }

  predicate IsLatin1(codes: seq<nat>) {
    forall i :: 0 <= i < |codes| ==> codes[i] <= 255
  }

  lemma {:induction false} Latin1PreservesExactlyLatin1(codes: seq<nat>)
    ensures CodesOf(Latin1Text(codes)) == codes <==> IsLatin1(codes)
  {
    var back := CodesOf(Latin1Text(codes));
    assert forall i :: 0 <= i < |codes| ==> back[i] == if codes[i] <= 255 then codes[i] else 63;
    if IsLatin1(codes) {
      assert back == codes;
    } else {
      var i :| 0 <= i < |codes| && codes[i] > 255;
      assert back[i] != codes[i];
    }
  }

  // A stored value survives the write unchanged exactly when its text fits the declared
  // length and the Latin-1 alphabet.
  lemma {:induction false} StoredUnchangedIff(value: Value, t: DataType, length: nat)
    requires Representable(value, t, length)
    ensures Stored(value, t, length) == value
            <==> (value.Text? ==> IsLatin1(value.codes) && (t == STRING ==> |value.codes| <= length))
  {
    if value.Text? {
      Latin1PreservesExactlyLatin1(value.codes);
      if t == STRING && |value.codes| > length {
        assert |Stored(value, t, length).codes| == length;
      }
    }
  }

  lemma {:induction false} IntegerRoundTrip(t: DataType, n: int)
    requires t !in {BOOL, CHAR, STRING, REAL, LREAL} && InIntegerRange(t, n)
    ensures DecodeScalar(t, EncodeInteger(t, n).value) == Number(n)
  {
    PowersOf256();
    var width := FixedWidth(t);
    BigEndianRoundTrip(if n < 0 then n + Pow256(width) else n, width);
  }

  lemma {:induction false} DecodeStringBody(image: seq<Byte>, raw: seq<Byte>, length: nat)
    requires 1 <= length <= MAX_STRING_LENGTH && |raw| <= length && |image| == length + 2
    requires image[0] as int == length && image[1] as int == |raw|
    requires image[2..2 + |raw|] == raw
    ensures DecodeString(image, 0, length) == Ok(Text(CodesOf(raw)))
  {
    assert AnnouncedLength(length, |raw|, length) == |raw|;
  }

  lemma {:induction false} NatByteRoundTrip(n: nat)
    requires n < 256
    ensures (n as Byte) as int == n
  {
  }

  lemma {:induction false} StringImageRoundTrip(raw: seq<Byte>, length: nat)
    requires 1 <= length <= MAX_STRING_LENGTH && |raw| <= length
    ensures DecodeString(StringImage(raw, length), 0, length) == Ok(Text(CodesOf(raw)))
  {
    var image := StringImage(raw, length);
    assert image[0] as int == length by { NatByteRoundTrip(length); }
    assert image[1] as int == |raw| by { NatByteRoundTrip(|raw|); }
    assert image[2..2 + |raw|] == raw;
    DecodeStringBody(image, raw, length);
  }

  lemma {:induction false} StringRoundTrip(codes: seq<nat>, length: nat)
    requires 1 <= length <= MAX_STRING_LENGTH
    ensures DecodeString(EncodeString(codes, length).value, 0, length) == Ok(Stored(Text(codes), STRING, length))
  {
    var all := Latin1Text(codes);
    if |all| <= length {
      StringImageRoundTrip(all, length);
    } else {
      StringImageRoundTrip(all[..length], length);
      assert CodesOf(all[..length]) == CodesOf(all)[..length];
    }
  }

  // Writing any representable non-bit value anywhere and decoding there yields the stored value.
  lemma {:induction false} DecodeAfterEncode(value: Value, t: DataType, length: nat, before: seq<Byte>,
                                             after: seq<Byte>)
    requires t != BOOL && Representable(value, t, length)
    ensures Encode(value, t, length, 0).Ok?
    ensures Decode(before + Encode(value, t, length, 0).value + after, t, |before|, 0, length)
            == Ok(Stored(value, t, length))
  {
    var enc := Encode(value, t, length, 0).value;
    DecodeRelocates(before, enc, after, t, 0, length);
    if t == STRING {
      StringRoundTrip(value.codes, length);
    } else if t == CHAR {
      assert CodesOf(Latin1Text(value.codes)) == [enc[0] as nat];
    } else {
      assert enc[0..|enc|] == enc;
      if t !in {REAL, LREAL} {
        IntegerRoundTrip(t, value.number);
      }
    }
  }
}
