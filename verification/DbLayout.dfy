// Resolving the declaration order of a data block into byte and bit offsets.
// Positions are counted in bits from the start of the block (8 * byte + bit).
module DbLayout {
  import opened Wrappers
  import opened Decoding
  import opened S7Types

  const MAX_MEMBERS: nat := 20_000
  const MAX_NESTING: nat := 16

  datatype MemberNode = MemberNode(name: string, declared: Declared, comment: string, children: seq<MemberNode>)
  {
    predicate IsStruct() {
      children != [] || declared == StructWord
    }
  }

  datatype DbMember = DbMember(
    path: string, declared: Declared, byteOffset: nat, bitOffset: nat, size: nat, comment: string,
    dataType: Option<DataType>, length: nat, reason: Reason)
  {
    predicate Supported() { dataType.Some? }

    // Only a structure is listed under the word Struct itself.
    predicate IsContainer() { declared == StructWord }

    function Start(): nat { 8 * byteOffset + bitOffset }

    function End(): nat {
      if dataType == Some(BOOL) then Start() + 1 else Start() + 8 * size
    }
  }

  datatype Warning = NestingCap | MemberCap | OffsetsMayBeWrong(path: string)

  // ---------------------------------------------------------------- the layout as a function

  // What walking part of a declaration produces: the members in listing order, the position
  // reached, and the warnings.
  datatype Walked = Walked(members: seq<DbMember>, position: nat, warnings: seq<Warning>)
  {
    function Then(rest: Walked): Walked {
      Walked(members + rest.members, rest.position, warnings + rest.warnings)
    }
  }

  function PathOf(prefix: string, name: string): string {
    if prefix == "" then name else prefix + "." + name
  }

  function Container(path: string, start: nat, end: nat, comment: string): DbMember
    requires start <= end
  {
    DbMember(path, StructWord, start / 8, 0, (end - start) / 8, comment, None, 1, Structure)
  }

  // The next byte boundary, unless already on one.
  function ToByte(position: nat): (r: nat)
    ensures position <= r
  {
    if position % 8 == 0 then position else position + 8 - position % 8
  }

  // The next even byte.
  function ToWord(position: nat): (r: nat)
    ensures position <= r
  {
    if position % 16 == 0 then position else position + 16 - position % 16
  }

  lemma {:induction false} ToByteIsLeast(position: nat, other: nat)
    ensures ToByte(position) % 8 == 0 && position <= ToByte(position) < position + 8
    ensures other % 8 == 0 && position <= other ==> ToByte(position) <= other
  {
  }

  lemma {:induction false} ToWordIsLeast(position: nat, other: nat)
    ensures ToWord(position) % 16 == 0 && position <= ToWord(position) < position + 16
    ensures other % 16 == 0 && position <= other ==> ToWord(position) <= other
  {
  }

  lemma {:induction false} ByteBoundary(byte: nat, bit: nat)
    requires bit <= 7
    ensures ToByte(8 * byte + bit) == 8 * (byte + if bit != 0 then 1 else 0)
  {
  }

  lemma {:induction false} WordBoundary(position: nat, byte: nat)
    requires ToByte(position) == 8 * byte
    ensures ToWord(position) == 8 * (byte + byte % 2)
  {
    var half := byte / 2;
    assert 8 * byte == 16 * half + 8 * (byte % 2);
  }

  lemma {:induction false} ContainerAt(path: string, start: nat, end: nat, comment: string, startByte: nat,
                                       endByte: nat)
    requires start == 8 * startByte && end == 8 * endByte && startByte <= endByte
    ensures Container(path, start, end, comment) == DbMember(path, StructWord, startByte, 0, endByte - startByte,
                                                             comment, None, 1, Structure)
  {
  }

  lemma {:induction false} Patched(before: seq<DbMember>, m: DbMember, inner: seq<DbMember>, size: nat)
    ensures var all := before + [m] + inner;
            all[|before| := all[|before|].(size := size)] == before + [m.(size := size)] + inner
  {
  }

  // Where a member that is not a structure starts when the previous one ended at `position`.
  function LeafStart(d: Declared, position: nat): nat {
    var info := MapDeclaredType(d);
    if d.StartsWithArray() then ToWord(position)
    else if info.IsBit() then position
    else if info.alignment >= 2 then ToWord(position)
    else ToByte(position)
  }

  function LeafBits(d: Declared): nat {
    var info := MapDeclaredType(d);
    if info.IsBit() then 1 else 8 * info.size
  }

  function Leaf(path: string, d: Declared, start: nat, comment: string): DbMember {
    var info := MapDeclaredType(d);
    if d.StartsWithArray() then
      DbMember(path, d, start / 8, 0, info.size, comment, None, 1, info.reason)
    else if info.IsBit() then
      DbMember(path, d, start / 8, start % 8, 1, comment, info.dataType, info.length, info.reason)
    else
      DbMember(path, d, start / 8, 0, info.size, comment, info.dataType, info.length, info.reason)
  }

  lemma {:induction false} LeafAt(path: string, d: Declared, start: nat, comment: string, byteOffset: nat,
                                  bitOffset: nat)
    requires start == 8 * byteOffset + bitOffset && bitOffset <= 7
    requires (MapDeclaredType(d).IsBit() && !d.StartsWithArray()) || bitOffset == 0
    ensures var info := MapDeclaredType(d);
            Leaf(path, d, start, comment)
            == if d.StartsWithArray() then DbMember(path, d, byteOffset, 0, info.size, comment, None, 1, info.reason)
               else DbMember(path, d, byteOffset, bitOffset, if info.IsBit() then 1 else info.size, comment,
                             info.dataType, info.length, info.reason)
  {
  }

  function LeafWarnings(path: string, d: Declared): seq<Warning> {
    if !d.StartsWithArray() && MapDeclaredType(d).reason == UnknownType then [OffsetsMayBeWrong(path)] else []
  }

  function WalkNode(node: MemberNode, position: nat, count: nat, prefix: string, depth: nat): (w: Walked)
    ensures w.position >= position
    decreases node
  {
    var path := PathOf(prefix, node.name);
    if node.IsStruct() then
      var start := ToWord(position);
      var inner := Walk(node.children, start, count + 1, path, depth + 1);
      var end := ToWord(inner.position);
      Walked([Container(path, start, end, node.comment)] + inner.members, end, inner.warnings)
    else
      var start := LeafStart(node.declared, position);
      Walked([Leaf(path, node.declared, start, node.comment)], start + LeafBits(node.declared),
             LeafWarnings(path, node.declared))
  }

  // `count` members are already listed when the walk begins.
  function Walk(nodes: seq<MemberNode>, position: nat, count: nat, prefix: string, depth: nat): (w: Walked)
    ensures w.position >= position
    decreases nodes
  {
    if depth > MAX_NESTING then Walked([], position, [NestingCap])
    else if nodes == [] then Walked([], position, [])
    else if count >= MAX_MEMBERS then Walked([], position, [MemberCap])
    else
      var first := WalkNode(nodes[0], position, count, prefix, depth);
      first.Then(Walk(nodes[1..], first.position, count + |first.members|, prefix, depth))
  }

  lemma {:induction false} WalkCons(nodes: seq<MemberNode>, position: nat, count: nat, prefix: string, depth: nat,
                                    first: Walked, rest: Walked)
    requires nodes != [] && depth <= MAX_NESTING && count < MAX_MEMBERS
    requires first == WalkNode(nodes[0], position, count, prefix, depth)
    requires rest == Walk(nodes[1..], first.position, count + |first.members|, prefix, depth)
    ensures Walk(nodes, position, count, prefix, depth) == first.Then(rest)
  {
  }

  // The outcome `w` after what was already listed.
  function After(members: seq<DbMember>, warnings: seq<Warning>, w: Walked): Walked {
    Walked(members + w.members, w.position, warnings + w.warnings)
  }

  lemma {:induction false} AfterThen(members: seq<DbMember>, warnings: seq<Warning>, first: Walked, rest: Walked)
    ensures After(members, warnings, first.Then(rest))
            == After(members + first.members, warnings + first.warnings, rest)
  {
    assert members + (first.members + rest.members) == (members + first.members) + rest.members;
    assert warnings + (first.warnings + rest.warnings) == (warnings + first.warnings) + rest.warnings;
  }

  lemma {:induction false} AfterOneNode(members: seq<DbMember>, warnings: seq<Warning>, nodes: seq<MemberNode>, i: nat,
                                        position: nat, prefix: string, depth: nat)
    requires i < |nodes| && depth <= MAX_NESTING && |members| < MAX_MEMBERS
    ensures var first := WalkNode(nodes[i], position, |members|, prefix, depth);
            After(members, warnings, Walk(nodes[i..], position, |members|, prefix, depth)) ==
            After(members + first.members, warnings + first.warnings,
                  Walk(nodes[i + 1..], first.position, |members + first.members|, prefix, depth))
  {
    assert nodes[i..][0] == nodes[i] && nodes[i..][1..] == nodes[i + 1..];
    var first := WalkNode(nodes[i], position, |members|, prefix, depth);
    var rest := Walk(nodes[i + 1..], first.position, |members| + |first.members|, prefix, depth);
    WalkCons(nodes[i..], position, |members|, prefix, depth, first, rest);
    AfterThen(members, warnings, first, rest);
  }

  function BlockMembers(nodes: seq<MemberNode>): seq<DbMember> {
    Walk(nodes, 0, 0, "", 0).members
  }

  function TotalBytes(nodes: seq<MemberNode>): nat {
    ToWord(Walk(nodes, 0, 0, "", 0).position) / 8
  }

  // ---------------------------------------------------------------- the walk as the program runs it

  class Cursor {
    var byte: nat
    var bit: nat

    ghost predicate Valid()
      reads this
    {
      bit <= 7
    }

    ghost function Position(): nat
      reads this
    {
      8 * byte + bit
    }

    constructor ()
      ensures Valid() && Position() == 0
    {
      byte, bit := 0, 0;
    }

    // Moves to the next byte boundary, unless already on one.
    method CloseByte()
      requires Valid()
      modifies this
      ensures Valid() && bit == 0 && Position() == ToByte(old(Position()))
    {
      ByteBoundary(byte, bit);
      if bit != 0 {
        byte := byte + 1;
        bit := 0;
      }
    }

    method PadToWord()
      requires Valid()
      modifies this
      ensures Valid() && bit == 0 && Position() == ToWord(old(Position()))
    {
      ghost var position := Position();
      CloseByte();
      WordBoundary(position, byte);
      if byte % 2 != 0 {
        byte := byte + 1;
      }
    }

    method Align(alignment: nat)
      requires Valid()
      modifies this
      ensures Valid() && bit == 0
      ensures Position() == (if alignment >= 2 then ToWord(old(Position())) else ToByte(old(Position())))
    {
      ghost var position := Position();
      CloseByte();
      WordBoundary(position, byte);
      if alignment >= 2 && byte % 2 != 0 {
        byte := byte + 1;
      }
    }

    method TakeBit() returns (byteOffset: nat, bitOffset: nat)
      requires Valid()
      modifies this
      ensures Valid() && Position() == old(Position()) + 1
      ensures bitOffset <= 7 && 8 * byteOffset + bitOffset == old(Position())
    {
      byteOffset, bitOffset := byte, bit;
      bit := bit + 1;
      if bit > 7 {
        bit := 0;
        byte := byte + 1;
      }
    }

    method TakeBytes(size: nat, alignment: nat) returns (start: nat)
      requires Valid()
      modifies this
      ensures Valid() && Position() == 8 * start + 8 * size
      ensures 8 * start == (if alignment >= 2 then ToWord(old(Position())) else ToByte(old(Position())))
    {
      Align(alignment);
      start := byte;
      byte := byte + size;
    }
  }

  class Layout {
    var members: seq<DbMember>
    var warnings: seq<Warning>
    var totalBytes: nat

    constructor ()
      ensures members == [] && warnings == [] && totalBytes == 0
    {
      members, warnings, totalBytes := [], [], 0;
    }

    method Place(node: MemberNode, cursor: Cursor, prefix: string, depth: nat)
      requires cursor.Valid()
      modifies this`members, this`warnings, cursor
      ensures cursor.Valid()
      ensures var w := WalkNode(node, old(cursor.Position()), |old(members)|, prefix, depth);
              && cursor.Position() == w.position
              && members == old(members) + w.members
              && warnings == old(warnings) + w.warnings
      decreases node, 2
    {
      var path := PathOf(prefix, node.name);
      if node.IsStruct() {
        PlaceStruct(node, cursor, path, depth);
      } else {
        PlaceLeaf(node, cursor, path);
      }
    }

    // One declared member that is not a structure.
    method PlaceLeaf(node: MemberNode, cursor: Cursor, path: string)
      requires cursor.Valid() && !node.IsStruct()
      modifies this`members, this`warnings, cursor
      ensures cursor.Valid()
      ensures cursor.Position() == LeafStart(node.declared, old(cursor.Position())) + LeafBits(node.declared)
      ensures members == old(members)
                         + [Leaf(path, node.declared, LeafStart(node.declared, old(cursor.Position())), node.comment)]
      ensures warnings == old(warnings) + LeafWarnings(path, node.declared)
    {
      TypeTableAgreesWithDecoder(node.declared);
      var info := MapDeclaredType(node.declared);
      ghost var position := LeafStart(node.declared, cursor.Position());
      if node.declared.StartsWithArray() {
        var start := cursor.TakeBytes(info.size, 2);
        LeafAt(path, node.declared, position, node.comment, start, 0);
        members := members + [DbMember(path, node.declared, start, 0, info.size, node.comment, None, 1, info.reason)];
      } else if info.IsBit() {
        var byteOffset, bitOffset := cursor.TakeBit();
        LeafAt(path, node.declared, position, node.comment, byteOffset, bitOffset);
        members := members + [DbMember(path, node.declared, byteOffset, bitOffset, 1, node.comment,
                                       info.dataType, info.length, info.reason)];
      } else {
        var start := cursor.TakeBytes(info.size, info.alignment);
        LeafAt(path, node.declared, position, node.comment, start, 0);
        if !info.Supported() && info.reason == UnknownType {
          warnings := warnings + [OffsetsMayBeWrong(path)];
        }
        members := members + [DbMember(path, node.declared, start, 0, info.size, node.comment,
                                       info.dataType, info.length, info.reason)];
      }
    }

    // A structure: listed before its members, its size patched in once they are placed.
    method PlaceStruct(node: MemberNode, cursor: Cursor, path: string, depth: nat)
      requires cursor.Valid() && node.IsStruct()
      modifies this`members, this`warnings, cursor
      ensures cursor.Valid()
      ensures var start := ToWord(old(cursor.Position()));
              var inner := Walk(node.children, start, |old(members)| + 1, path, depth + 1);
              var end := ToWord(inner.position);
              && cursor.Position() == end
              && members == old(members) + [Container(path, start, end, node.comment)] + inner.members
              && warnings == old(warnings) + inner.warnings
      decreases node, 1
    {
      ghost var before := members;
      cursor.Align(2);
      var start := cursor.byte;
      var index := |members|;
      members := members + [DbMember(path, StructWord, start, 0, 0, node.comment, None, 1, Structure)];
      ghost var inner := Walk(node.children, cursor.Position(), |members|, path, depth + 1);
      WalkInto(node.children, cursor, path, depth + 1);
      cursor.PadToWord();
      ContainerAt(path, 8 * start, 8 * cursor.byte, node.comment, start, cursor.byte);
      Patched(before, DbMember(path, StructWord, start, 0, 0, node.comment, None, 1, Structure), inner.members,
              cursor.byte - start);
      members := members[index := members[index].(size := cursor.byte - start)];
    }

    method WalkInto(nodes: seq<MemberNode>, cursor: Cursor, prefix: string, depth: nat)
      requires cursor.Valid()
      modifies this`members, this`warnings, cursor
      ensures cursor.Valid()
      ensures var w := Walk(nodes, old(cursor.Position()), |old(members)|, prefix, depth);
              && cursor.Position() == w.position
              && members == old(members) + w.members
              && warnings == old(warnings) + w.warnings
      decreases nodes, 0
    {
      if depth > MAX_NESTING {
        warnings := warnings + [NestingCap];
        return;
      }
      ghost var whole := After(members, warnings, Walk(nodes, cursor.Position(), |members|, prefix, depth));
      assert nodes[0..] == nodes;
      for i := 0 to |nodes|
        invariant cursor.Valid()
        invariant After(members, warnings, Walk(nodes[i..], cursor.Position(), |members|, prefix, depth)) == whole
      {
        var node := nodes[i];
        if |members| >= MAX_MEMBERS {
          assert Walk(nodes[i..], cursor.Position(), |members|, prefix, depth).warnings == [MemberCap];
          warnings := warnings + [MemberCap];
          return;
        }
        AfterOneNode(members, warnings, nodes, i, cursor.Position(), prefix, depth);
        Place(node, cursor, prefix, depth);
      }
    }
  }

  method ComputeLayout(nodes: seq<MemberNode>) returns (layout: Layout)
    ensures fresh(layout)
    ensures layout.members == BlockMembers(nodes)
    ensures layout.totalBytes == TotalBytes(nodes)
    ensures layout.warnings == Walk(nodes, 0, 0, "", 0).warnings
  {
    layout := new Layout();
    var cursor := new Cursor();
    layout.WalkInto(nodes, cursor, "", 0);
    cursor.PadToWord();
    layout.totalBytes := cursor.byte;
  }
}
