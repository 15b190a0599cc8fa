// A computed layout as a memory model: every readable member is an independent variable.
module MemoryModel {
  import opened Wrappers
  import opened Bytes
  import opened Decoding
  import opened S7Types
  import opened DbLayout
  import opened LayoutLaws

  function ReadMember(buffer: seq<Byte>, m: DbMember): Result<Value>
    requires m.Supported()
  {
    Decode(buffer, m.dataType.value, m.byteOffset, m.bitOffset, m.length)
  }

  function Splice(buffer: seq<Byte>, at: nat, bytes: seq<Byte>): (r: seq<Byte>)
    requires at + |bytes| <= |buffer|
    ensures |r| == |buffer|
  {
    buffer[..at] + bytes + buffer[at + |bytes|..]
  }

  // The write a caller performs with encode and apply_bit: a flag is a read-modify-write of its
  // byte, any other value replaces its own bytes.
  function WriteMember(buffer: seq<Byte>, m: DbMember, value: Value): Result<seq<Byte>>
    requires m.Supported()
  {
    var t := m.dataType.value;
    var encoded := Encode(value, t, m.length, m.bitOffset);
    if encoded.Err? then Err(encoded.error)
    else if m.byteOffset + |encoded.value| > |buffer| then Err(ShortBuffer)
    else if t == BOOL then
      var updated := ApplyBit(buffer[m.byteOffset], m.bitOffset, value.flag);
      if updated.Err? then Err(updated.error) else Ok(Splice(buffer, m.byteOffset, [updated.value]))
    else Ok(Splice(buffer, m.byteOffset, encoded.value))
  }

  predicate Apart(a: DbMember, b: DbMember) {
    a.End() <= b.Start() || b.End() <= a.Start()
  }

  predicate Addressable(m: DbMember, buffer: seq<Byte>) {
    m.Supported() && WellTyped(m) && m.byteOffset + m.size <= |buffer|
  }

  predicate Accepts(m: DbMember, value: Value) {
    m.Supported() && Representable(value, m.dataType.value, m.length)
  }

  lemma {:induction false} SpliceOutside(buffer: seq<Byte>, at: nat, bytes: seq<Byte>, low: nat, high: nat)
    requires at + |bytes| <= |buffer| && low <= high <= |buffer|
    requires high <= at || at + |bytes| <= low
    ensures Splice(buffer, at, bytes)[low..high] == buffer[low..high]
  {
  }

  lemma {:induction false} WriteThenReadFlag(buffer: seq<Byte>, m: DbMember, value: Value)
    requires Addressable(m, buffer) && Accepts(m, value) && m.dataType == Some(BOOL)
    ensures var w := WriteMember(buffer, m, value);
            w.Ok? && |w.value| == |buffer| && ReadMember(w.value, m) == Ok(value)
  {
    ApplyBitSetsOneBit(buffer[m.byteOffset], m.bitOffset, value.flag, m.bitOffset);
  }

  lemma {:induction false} WriteThenReadBytes(buffer: seq<Byte>, m: DbMember, value: Value)
    requires Addressable(m, buffer) && Accepts(m, value) && m.dataType != Some(BOOL)
    ensures var w := WriteMember(buffer, m, value);
            && w.Ok? && |w.value| == |buffer|
            && ReadMember(w.value, m) == Ok(Stored(value, m.dataType.value, m.length))
  {
    var t := m.dataType.value;
    EncodeAcceptsExactlyRepresentable(value, t, m.length, m.bitOffset);
    var enc := Encode(value, t, m.length, 0).value;
    DecodeAfterEncode(value, t, m.length, buffer[..m.byteOffset], buffer[m.byteOffset + |enc|..]);
  }

  lemma {:induction false} WriteThenReadSame(buffer: seq<Byte>, m: DbMember, value: Value)
    requires Addressable(m, buffer) && Accepts(m, value)
    ensures var w := WriteMember(buffer, m, value);
            && w.Ok? && |w.value| == |buffer|
            && ReadMember(w.value, m) == Ok(Stored(value, m.dataType.value, m.length))
  {
    EncodeAcceptsExactlyRepresentable(value, m.dataType.value, m.length, m.bitOffset);
    if m.dataType == Some(BOOL) {
      WriteThenReadFlag(buffer, m, value);
    } else {
      WriteThenReadBytes(buffer, m, value);
    }
  }

  // The bytes a write replaces lie within the member's own.
  lemma {:induction false} WriteFootprint(buffer: seq<Byte>, m: DbMember, value: Value) returns (bytes: seq<Byte>)
    requires Addressable(m, buffer) && Accepts(m, value)
    ensures |bytes| == m.size && WriteMember(buffer, m, value) == Ok(Splice(buffer, m.byteOffset, bytes))
    ensures m.dataType == Some(BOOL) ==>
              forall k :: 0 <= k <= 7 && k != m.bitOffset ==> BitOf(bytes[0], k) == BitOf(buffer[m.byteOffset], k)
  {
    var t := m.dataType.value;
    EncodeAcceptsExactlyRepresentable(value, t, m.length, m.bitOffset);
    if t == BOOL {
      bytes := [ApplyBit(buffer[m.byteOffset], m.bitOffset, value.flag).value];
      forall k | 0 <= k <= 7 && k != m.bitOffset
        ensures BitOf(bytes[0], k) == BitOf(buffer[m.byteOffset], k)
      {
        ApplyBitSetsOneBit(buffer[m.byteOffset], m.bitOffset, value.flag, k);
      }
    } else {
      bytes := Encode(value, t, m.length, m.bitOffset).value;
    }
  }

  lemma {:induction false} WriteThenReadOther(buffer: seq<Byte>, m: DbMember, value: Value, other: DbMember)
    requires Addressable(m, buffer) && Accepts(m, value)
    requires Addressable(other, buffer) && Apart(m, other)
    ensures ReadMember(WriteMember(buffer, m, value).value, other) == ReadMember(buffer, other)
  {
    var bytes := WriteFootprint(buffer, m, value);
    var after := Splice(buffer, m.byteOffset, bytes);
    var t := other.dataType.value;
    if m.byteOffset == other.byteOffset && t == BOOL && m.dataType == Some(BOOL) {
      assert after[m.byteOffset] == bytes[0];
    } else {
      SpliceOutside(buffer, m.byteOffset, bytes, other.byteOffset, other.byteOffset + other.size);
      DecodeIsLocal(after, buffer, t, other.byteOffset, other.bitOffset, other.length);
    }
  }

  // Every member of a computed block is addressable in any buffer of the block's length, and
  // two members are apart unless one is a structure around the other.
  lemma {:induction false} BlockMembersAreAddressable(nodes: seq<MemberNode>, buffer: seq<Byte>)
    requires |buffer| >= TotalBytes(nodes)
    ensures var ms := BlockMembers(nodes);
            && (forall i :: 0 <= i < |ms| && ms[i].Supported() ==> Addressable(ms[i], buffer))
            && (forall i, j :: 0 <= i < |ms| && 0 <= j < |ms| && i != j && ms[i].Supported() && ms[j].Supported()
                               ==> Apart(ms[i], ms[j]))
  {
    var ms := BlockMembers(nodes);
    BlockHasNoOverlap(nodes);
    WalkIsWellTyped(nodes, 0, 0, "", 0);
    forall i | 0 <= i < |ms| && ms[i].Supported()
      ensures Addressable(ms[i], buffer)
    {
      assert WellTyped(ms[i]) && ms[i].End() <= 8 * TotalBytes(nodes);
    }
    forall i, j | 0 <= i < |ms| && 0 <= j < |ms| && i != j && ms[i].Supported() && ms[j].Supported()
      ensures Apart(ms[i], ms[j])
    {
      assert WellTyped(ms[i]) && WellTyped(ms[j]);
    }
  }

  // Decoding any readable member of a computed block never fails, whatever the bytes are.
  lemma {:induction false} EveryMemberDecodes(nodes: seq<MemberNode>, buffer: seq<Byte>, i: nat)
    requires |buffer| >= TotalBytes(nodes)
    requires i < |BlockMembers(nodes)| && BlockMembers(nodes)[i].Supported()
    ensures ReadMember(buffer, BlockMembers(nodes)[i]).Ok?
  {
    BlockMembersAreAddressable(nodes, buffer);
    var m := BlockMembers(nodes)[i];
    assert Addressable(m, buffer);
    DecodeNeverFailsInBounds(buffer, m.dataType.value, m.byteOffset, m.bitOffset, m.length);
  }

  // ---------------------------------------------------------------- runs of writes

  datatype Write = Write(member: nat, value: Value)

  predicate ValidWrites(ms: seq<DbMember>, writes: seq<Write>) {
    forall k :: 0 <= k < |writes| ==> writes[k].member < |ms| && Accepts(ms[writes[k].member], writes[k].value)
  }

  function RunWrites(buffer: seq<Byte>, ms: seq<DbMember>, writes: seq<Write>): seq<Byte>
    requires ValidWrites(ms, writes)
  {
    if writes == [] then buffer
    else
      var before := RunWrites(buffer, ms, writes[..|writes| - 1]);
      var last := writes[|writes| - 1];
      var w := WriteMember(before, ms[last.member], last.value);
      if w.Ok? then w.value else before
  }

  function LastWrite(writes: seq<Write>, member: nat): Option<Value> {
    if writes == [] then None
    else if writes[|writes| - 1].member == member then Some(writes[|writes| - 1].value)
    else LastWrite(writes[..|writes| - 1], member)
  }

  // For any declaration and any run of writes, each member reads back the last value written to
  // it, and a member never written reads as it did at the start.
  lemma {:induction false} MembersAreIndependentVariables(nodes: seq<MemberNode>, buffer: seq<Byte>,
                                                          writes: seq<Write>, i: nat)
    requires |buffer| >= TotalBytes(nodes)
    requires ValidWrites(BlockMembers(nodes), writes)
    requires i < |BlockMembers(nodes)| && BlockMembers(nodes)[i].Supported()
    ensures var m := BlockMembers(nodes)[i];
            var after := RunWrites(buffer, BlockMembers(nodes), writes);
            && |after| == |buffer|
            && ReadMember(after, m)
               == match LastWrite(writes, i)
                  case Some(value) => Ok(Stored(value, m.dataType.value, m.length))
                  case None => ReadMember(buffer, m)
    decreases |writes|
  {
    if writes != [] {
      var ms := BlockMembers(nodes);
      var front := writes[..|writes| - 1];
      var last := writes[|writes| - 1];
      MembersAreIndependentVariables(nodes, buffer, front, i);
      var before := RunWrites(buffer, ms, front);
      BlockMembersAreAddressable(nodes, before);
      assert Accepts(ms[last.member], last.value);
      assert Addressable(ms[last.member], before) && Addressable(ms[i], before);
      WriteThenReadSame(before, ms[last.member], last.value);
      if last.member != i {
        WriteThenReadOther(before, ms[last.member], last.value, ms[i]);
      }
    }
  }
}
