// The closed form for the size of an array against the walk it abbreviates: laying out the same
// number of consecutive members of the element type.
module ArrayForm {
  import opened Decoding
  import opened S7Types
  import opened DbLayout

  predicate Repeats(nodes: seq<MemberNode>, d: Declared) {
    d != StructWord && forall i :: 0 <= i < |nodes| ==> nodes[i].declared == d && nodes[i].children == []
  }

  // Whether the walk puts members declared d on even bytes.
  predicate OnWords(d: Declared) {
    d.StartsWithArray() || MapDeclaredType(d).alignment == 2
  }

  function Padded(onWords: bool, position: nat): nat {
    if onWords then ToWord(position) else ToByte(position)
  }

  // The position after n members of `size` bytes, each first padded to a word or a byte.
  function AfterMembers(onWords: bool, size: nat, position: nat, n: nat): nat
    decreases n
  {
    if n == 0 then position else AfterMembers(onWords, size, Padded(onWords, position) + 8 * size, n - 1)
  }

  // Bytes from the start of one such member to the start of the next.
  function Stride(onWords: bool, size: nat): nat {
    if onWords then RoundUp(size, 2) else size
  }

  lemma {:induction false} NextMemberStart(onWords: bool, size: nat, position: nat)
    ensures Padded(onWords, Padded(onWords, position) + 8 * size)
            == Padded(onWords, position) + 8 * Stride(onWords, size)
  {
    var start := Padded(onWords, position);
    ToByteIsLeast(position, 0);
    ToWordIsLeast(position, 0);
    NextStartAt(onWords, size, start / 8);
  }

  lemma {:induction false} NextStartAt(onWords: bool, size: nat, startByte: nat)
    requires onWords ==> startByte % 2 == 0
    ensures Padded(onWords, 8 * startByte + 8 * size) == 8 * startByte + 8 * Stride(onWords, size)
  {
    ByteBoundary(startByte + size, 0);
    WordBoundary(8 * startByte + 8 * size, startByte + size);
  }

  lemma {:induction false} AfterMembersClosedForm(onWords: bool, size: nat, position: nat, start: nat, n: nat)
    requires n >= 1 && start == Padded(onWords, position)
    ensures AfterMembers(onWords, size, position, n) == start + 8 * ((n - 1) * Stride(onWords, size) + size)
    decreases n
  {
    var stride := Stride(onWords, size);
    if n > 1 {
      NextMemberStart(onWords, size, position);
      AfterMembersClosedForm(onWords, size, start + 8 * size, start + 8 * stride, n - 1);
      assert (n - 1) * stride == (n - 2) * stride + stride;
    } else {
      assert (n - 1) * stride == 0;
      assert AfterMembers(onWords, size, position, 1) == AfterMembers(onWords, size, start + 8 * size, 0);
    }
  }

  lemma {:induction false} WalkPastLeaf(nodes: seq<MemberNode>, d: Declared, position: nat, count: nat)
    requires nodes != [] && Repeats(nodes, d) && count < MAX_MEMBERS
    ensures Walk(nodes, position, count, "", 0).position
            == Walk(nodes[1..], LeafStart(d, position) + LeafBits(d), count + 1, "", 0).position
  {
    var first := WalkNode(nodes[0], position, count, "", 0);
    WalkCons(nodes, position, count, "", 0, first, Walk(nodes[1..], first.position, count + 1, "", 0));
  }

  lemma {:induction false} LeafIsPadded(d: Declared, position: nat)
    requires !MapDeclaredType(d).IsBit() && MapDeclaredType(d).alignment <= 2
    ensures LeafStart(d, position) == Padded(OnWords(d), position) && LeafBits(d) == 8 * MapDeclaredType(d).size
  {
  }

  lemma {:induction false} WalkOfBits(nodes: seq<MemberNode>, d: Declared, position: nat, count: nat)
    requires Repeats(nodes, d) && MapDeclaredType(d).IsBit() && count + |nodes| <= MAX_MEMBERS
    ensures Walk(nodes, position, count, "", 0).position == position + |nodes|
    decreases nodes
  {
    if nodes != [] {
      WalkPastLeaf(nodes, d, position, count);
      WalkOfBits(nodes[1..], d, position + 1, count + 1);
    }
  }

  lemma {:induction false} WalkOfBytes(nodes: seq<MemberNode>, d: Declared, position: nat, count: nat)
    requires Repeats(nodes, d) && !MapDeclaredType(d).IsBit() && count + |nodes| <= MAX_MEMBERS
    ensures Walk(nodes, position, count, "", 0).position
            == AfterMembers(OnWords(d), MapDeclaredType(d).size, position, |nodes|)
    decreases nodes
  {
    if nodes != [] {
      TypeTableAgreesWithDecoder(d);
      LeafIsPadded(d, position);
      WalkPastLeaf(nodes, d, position, count);
      WalkOfBytes(nodes[1..], d, LeafStart(d, position) + LeafBits(d), count + 1);
    }
  }

  // Total length of n members walked from an empty block, in terms of the stride.
  lemma {:induction false} TotalOfBytes(nodes: seq<MemberNode>, d: Declared)
    requires nodes != [] && Repeats(nodes, d) && !MapDeclaredType(d).IsBit() && |nodes| <= MAX_MEMBERS
    ensures var info := MapDeclaredType(d);
            var end := (|nodes| - 1) * Stride(OnWords(d), info.size) + info.size;
            Walk(nodes, 0, 0, "", 0).position == 8 * end && TotalBytes(nodes) == RoundUp(end, 2)
  {
    WalkOfBytes(nodes, d, 0, 0);
    AfterMembersClosedForm(OnWords(d), MapDeclaredType(d).size, 0, 0, |nodes|);
    BitsToBytes((|nodes| - 1) * Stride(OnWords(d), MapDeclaredType(d).size) + MapDeclaredType(d).size);
  }

  lemma {:induction false} BitsToBytes(bytes: nat)
    ensures ToWord(8 * bytes) / 8 == RoundUp(bytes, 2)
  {
  }

  lemma {:induction false} Even(half: nat, n: nat)
    ensures (2 * half * n) % 2 == 0
  {
    assert 2 * half * n == 2 * (half * n);
  }

  // (n - 1) words-aligned strides plus a size round up to n strides.
  lemma {:induction false} WordsRoundUp(size: nat, n: nat)
    requires n >= 1
    ensures var stride := RoundUp(size, 2);
            && (stride * n) % 2 == 0
            && RoundUp((n - 1) * stride + size, 2) == stride * n
  {
    var half := RoundUp(size, 2) / 2;
    Even(half, n);
    Even(half, n - 1);
    assert (n - 1) * (2 * half) == 2 * half * (n - 1) == 2 * half * n - 2 * half;
  }

  // The closed form in terms of the walk's end position.
  lemma {:induction false} ArraySizeFromStride(info: TypeInfo, n: nat)
    requires n >= 1 && !info.IsBit() && info.alignment <= 2
    ensures var end := (n - 1) * Stride(info.alignment == 2, info.size) + info.size;
            ArraySize(info, n) == if info.alignment == 2 then RoundUp(end, 2) else end
  {
    if info.alignment == 2 {
      WordsRoundUp(info.size, n);
    } else {
      assert info.size * n == (n - 1) * info.size + info.size;
    }
  }

  lemma {:induction false} BitArraySize(nodes: seq<MemberNode>, d: Declared)
    requires nodes != [] && Repeats(nodes, d) && |nodes| <= MAX_MEMBERS && MapDeclaredType(d).IsBit()
    ensures ArraySize(MapDeclaredType(d), |nodes|) == TotalBytes(nodes)
    ensures RoundUp(TotalBytes(nodes), 2) == TotalBytes(nodes)
  {
    TypeTableAgreesWithDecoder(d);
    WalkOfBits(nodes, d, 0, 0);
    RoundedBits(|nodes|);
  }

  // For every element type that is not itself an array and every count, the closed form is the
  // length of the walked block - before the block's final even rounding, when elements are
  // byte-aligned.
  lemma {:induction false} ArraySizeIsTheWalk(nodes: seq<MemberNode>, d: Declared)
    requires nodes != [] && Repeats(nodes, d) && |nodes| <= MAX_MEMBERS && !d.StartsWithArray()
    ensures var info := MapDeclaredType(d);
            var size := ArraySize(info, |nodes|);
            && RoundUp(size, 2) == TotalBytes(nodes)
            && (info.alignment == 1 ==> 8 * size == Walk(nodes, 0, 0, "", 0).position)
            && (info.alignment != 1 ==> size == TotalBytes(nodes))
  {
    TypeTableAgreesWithDecoder(d);
    if MapDeclaredType(d).IsBit() {
      BitArraySize(nodes, d);
    } else {
      var info := MapDeclaredType(d);
      TotalOfBytes(nodes, d);
      ArraySizeFromStride(info, |nodes|);
      RoundUpTwice((|nodes| - 1) * Stride(OnWords(d), info.size) + info.size);
    }
  }

  lemma {:induction false} RoundUpTwice(value: nat)
    ensures RoundUp(RoundUp(value, 2), 2) == RoundUp(value, 2) && RoundUp(value, 2) % 2 == 0
  {
  }

  lemma {:induction false} RoundedTo8(q: nat, r: nat)
    requires r < 8
    ensures RoundUp(8 * q + r, 8) / 8 == q + if r == 0 then 0 else 1
  {
    assert (8 * q + r) % 8 == r;
  }

  lemma {:induction false} RoundedBits(n: nat)
    ensures RoundUp(RoundUp(n, 8) / 8, 2) == ToWord(n) / 8
    ensures RoundUp(ToWord(n) / 8, 2) == ToWord(n) / 8
  {
    var q, r := n / 8, n % 8;
    RoundedTo8(q, r);
    var up := q + if r == 0 then 0 else 1;
    WordsOfBits(n, up);
  }

  lemma {:induction false} WordsOfBits(n: nat, bytes: nat)
    requires 8 * bytes - 8 < n <= 8 * bytes
    ensures ToWord(n) / 8 == RoundUp(bytes, 2) && RoundUp(RoundUp(bytes, 2), 2) == RoundUp(bytes, 2)
  {
    var half := bytes / 2;
    assert bytes == 2 * half + bytes % 2;
  }

  // An array of arrays is the one place where the closed form can disagree with the walk: it does
  // so exactly when the inner array has an odd length and there is more than one of them, because
  // the walk pads every array to an even start and the closed form does not.
  lemma {:induction false} NestedArrayAgreesIff(nodes: seq<MemberNode>, d: Declared)
    requires nodes != [] && Repeats(nodes, d) && |nodes| <= MAX_MEMBERS && d.StartsWithArray()
    ensures RoundUp(ArraySize(MapDeclaredType(d), |nodes|), 2) == TotalBytes(nodes)
            <==> !(MapDeclaredType(d).size % 2 == 1 && |nodes| > 1)
  {
    var info, n := MapDeclaredType(d), |nodes|;
    TypeTableAgreesWithDecoder(d);
    WordAlignedArraysAreEven(d);
    TotalOfBytes(nodes, d);
    WordsRoundUp(info.size, n);
    if info.size % 2 == 1 {
      assert RoundUp(info.size, 2) * n == info.size * n + n;
    }
  }

  // An array occupies an even number of bytes, as the layout rules say, unless its elements are
  // byte-aligned and make up an odd number of bytes.
  lemma {:induction false} ArrayLengthIsEvenIff(element: Declared, low: int, high: int)
    requires low <= high
    ensures var info := MapDeclaredType(element);
            MapDeclaredType(ArrayOf(low, high, element)).size % 2 == 0
            <==> !(info.alignment == 1 && (info.size * (high - low + 1)) % 2 == 1)
  {
    var info := MapDeclaredType(element);
    TypeTableAgreesWithDecoder(element);
    if info.alignment == 2 {
      WordsRoundUp(info.size, high - low + 1);
    } else if info.IsBit() {
      RoundUpTwice(RoundUp(high - low + 1, 8) / 8);
    }
  }

  lemma {:induction false} WordAlignedArraysAreEven(d: Declared)
    requires d.StartsWithArray()
    ensures MapDeclaredType(d).alignment == 2 ==> MapDeclaredType(d).size % 2 == 0
  {
    if d.ArrayOf? && d.high - d.low + 1 > 0 {
      TypeTableAgreesWithDecoder(d.element);
      ArrayLengthIsEvenIff(d.element, d.low, d.high);
    }
  }

  // The shortest instance: three bytes stay three bytes, and the next byte follows at offset 3.
  lemma {:induction false} ThreeByteArrayStaysOdd(name: string, next: string)
    ensures var bytes := ArrayOf(0, 2, Fixed(Byte));
            var ms := BlockMembers([MemberNode(name, bytes, "", []), MemberNode(next, Fixed(Byte), "", [])]);
            |ms| == 2 && ms[0].size == 3 && ms[1].byteOffset == 3
  {
    var bytes := ArrayOf(0, 2, Fixed(Byte));
    var nodes := [MemberNode(name, bytes, "", []), MemberNode(next, Fixed(Byte), "", [])];
    assert MapDeclaredType(bytes).size == 3;
    assert nodes[1..] == [nodes[1]] && nodes[1..][1..] == [];
    assert WalkNode(nodes[0], 0, 0, "", 0).position == 24;
    assert WalkNode(nodes[1], 24, 1, "", 0).members[0].byteOffset == 3;
    assert Walk(nodes[1..], 24, 1, "", 0).members
           == WalkNode(nodes[1], 24, 1, "", 0).members + Walk([], 32, 2, "", 0).members;
  }
}
