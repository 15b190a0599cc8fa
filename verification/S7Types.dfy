// Declared types of an engineering export: what they occupy, how they align, and how the
// gateway shows them. Declarations are taken after spelling normalisation.
module S7Types {
  import opened Wrappers
  import opened Decoding

  // The fixed types of the table, one constructor per key.
  datatype Elementary =
    Bool | Byte | Char | SInt | USInt | Word | Int | UInt | DWord | DInt | UDInt | Real | LReal
    | S5Time | Time | Date | TimeOfDay | Tod | DateAndTime | Dt | Dtl | LTime | LInt | ULInt
    | LWord | Timer | Counter | IecTimer | IecCounter

  // A declared type after normalisation. `arrayLike` marks unrecognised text that begins with
  // ARRAY, such as a two-dimensional array.
  datatype Declared =
    | Fixed(elementary: Elementary)
    | Str(declaredLength: Option<nat>)
    | WStr(declaredLength: Option<nat>)
    | ArrayOf(low: int, high: int, element: Declared)
    | StructWord
    | NoType
    | Unrecognised(arrayLike: bool)
  {
    predicate StartsWithArray() {
      ArrayOf? || (Unrecognised? && arrayLike)
    }
  }

  datatype Reason =
    NoReason | NotDecoded | BadStringLength | EmptyBounds | ArrayElements | NoTypeGiven | UnknownType | Structure

  // alignment: 0 = packed bit, 1 = byte, 2 = word.
  datatype TypeInfo = TypeInfo(dataType: Option<DataType>, length: nat, size: nat, alignment: nat, reason: Reason)
  {
    predicate Supported() { dataType.Some? }
    predicate IsBit() { alignment == 0 }
  }

  const DEFAULT_STRING_LENGTH: nat := 254

  function Readable(t: DataType, size: nat, alignment: nat, length: nat): TypeInfo {
    TypeInfo(Some(t), length, size, alignment, NoReason)
  }

  function Unreadable(size: nat, alignment: nat, reason: Reason): TypeInfo {
    TypeInfo(None, 1, size, alignment, reason)
  }

  function FixedInfo(e: Elementary): TypeInfo {
    match e
    case Bool => Readable(BOOL, 1, 0, 1)
    case Byte | SInt | USInt => Readable(BYTE, 1, 1, 1)
    case Char => Readable(CHAR, 1, 1, 1)
    case Word | S5Time => Readable(WORD, 2, 2, 1)
    case Int => Readable(INT, 2, 2, 1)
    case UInt | Date => Readable(UINT, 2, 2, 1)
    case DWord => Readable(DWORD, 4, 2, 1)
    case DInt | Time => Readable(DINT, 4, 2, 1)
    case UDInt | TimeOfDay | Tod => Readable(UDINT, 4, 2, 1)
    case Real => Readable(REAL, 4, 2, 1)
    case LReal => Readable(LREAL, 8, 2, 1)
    case DateAndTime | Dt | LTime | LInt | ULInt | LWord => Unreadable(8, 2, NotDecoded)
    case Dtl => Unreadable(12, 2, NotDecoded)
    case Timer | Counter => Unreadable(2, 2, NotDecoded)
    case IecTimer | IecCounter => Unreadable(16, 2, NotDecoded)
  }

  function LengthOr254(length: Option<nat>): nat {
    if length.Some? then length.value else DEFAULT_STRING_LENGTH
  }

  function Max(a: int, b: int): int { if a > b then a else b }

  function MapDeclaredType(d: Declared): TypeInfo {
    match d
    case Fixed(e) => FixedInfo(e)
    case WStr(n) => Unreadable(2 * LengthOr254(n) + 4, 2, NotDecoded)
    case Str(n) =>
      var length := LengthOr254(n);
      if !(1 <= length <= MAX_STRING_LENGTH) then Unreadable(2, 2, BadStringLength)
      else Readable(STRING, length + 2, 2, length)
    case ArrayOf(low, high, element) =>
      var info := MapDeclaredType(element);
      var count := high - low + 1;
      if count <= 0 then Unreadable(1, 1, EmptyBounds)
      else TypeInfo(None, 1, ArraySize(info, count), Max(info.alignment, 1), ArrayElements)
    case NoType => Unreadable(1, 1, NoTypeGiven)
    case StructWord | Unrecognised(_) => Unreadable(1, 1, UnknownType)
  }

  function RoundUp(value: nat, multiple: nat): nat {
    if multiple <= 1 then value
    else
      var remainder := value % multiple;
      if remainder == 0 then value else value + (multiple - remainder)
  }

  function ArraySize(element: TypeInfo, count: nat): nat {
    if element.IsBit() then RoundUp(RoundUp(count, 8) / 8, 2)
    else
      var stride := if element.alignment == 2 then RoundUp(element.size, 2) else element.size;
      if element.alignment == 2 then RoundUp(stride * count, 2) else stride * count
  }

  lemma {:induction false} MoreFactors(m: nat, a: nat, b: nat)
    requires a <= b
    ensures m * a <= m * b
  {
    assert m * b == m * a + m * (b - a);
  }

  // How many blocks of the size hold the value.
  function Blocks(value: nat, size: nat): nat
    requires size >= 1
  {
    if value % size == 0 then value / size else value / size + 1
  }

  // Rounding up gives the least multiple that is not below the value.
  lemma {:induction false} RoundUpIsLeastMultiple(value: nat, multiple: nat, factor: nat)
    requires multiple >= 1
    ensures RoundUp(value, multiple) == multiple * Blocks(value, multiple)
    ensures value <= RoundUp(value, multiple) < value + multiple
    ensures value <= multiple * factor <==> Blocks(value, multiple) <= factor
  {
    var q, r := value / multiple, value % multiple;
    assert value == multiple * q + r;
    assert multiple * (q + 1) == multiple * q + multiple;
    if factor >= q + 1 {
      MoreFactors(multiple, q + 1, factor);
    } else if factor < q {
      MoreFactors(multiple, factor + 1, q);
      assert multiple * (factor + 1) == multiple * factor + multiple;
    }
  }

  // Outside arrays, exactly what is wider than a byte starts on a word.
  lemma {:induction false} WiderThanAByteIsWordAligned(d: Declared)
    requires !d.ArrayOf?
    ensures MapDeclaredType(d).alignment == 2 <==> MapDeclaredType(d).size >= 2
  {
  }

  // The type table, array sizes and the decoder agree: a supported declaration is laid out with
  // exactly the width the decoder will read, packed as a bit exactly when it is a BOOL, and
  // occupies at least a byte whether supported or not.
  lemma {:induction false} TypeTableAgreesWithDecoder(d: Declared)
    ensures var info := MapDeclaredType(d);
            && info.size >= 1 && info.alignment <= 2
            && (info.Supported() ==> SizeOf(info.dataType.value, info.length) == Ok(info.size))
            && (info.Supported() ==> !d.StartsWithArray() && d != StructWord)
            && (info.IsBit() <==> info.dataType == Some(BOOL))
  {
    if d.ArrayOf? && d.high - d.low + 1 > 0 {
      TypeTableAgreesWithDecoder(d.element);
      ArraySizeIsPositive(MapDeclaredType(d.element), d.high - d.low + 1);
    }
  }

  lemma {:induction false} ArraySizeIsPositive(element: TypeInfo, count: nat)
    requires element.size >= 1 && count >= 1
    ensures ArraySize(element, count) >= 1
  {
    if element.IsBit() {
    } else {
      var stride := if element.alignment == 2 then RoundUp(element.size, 2) else element.size;
      assert stride * count >= stride;
    }
  }
}
