// Which declarations a layout warns about, and which stand-in sizes pass without a warning.
module LayoutWarnings {
  import opened Wrappers
  import opened Decoding
  import opened S7Types
  import opened DbLayout

  // The size laid out for the declaration is a stand-in: its type, or its element's, is not known
  // or makes no sense, so every offset after it may be wrong.
  predicate StandIn(d: Declared) {
    match d
    case Fixed(_) => false
    case WStr(_) => false
    case Str(n) => !(1 <= LengthOr254(n) <= MAX_STRING_LENGTH)
    case ArrayOf(low, high, element) => high < low || StandIn(element)
    case StructWord | NoType | Unrecognised(_) => true
  }

  // The stand-ins that pass silently: arrays of them, anything else that begins with ARRAY, empty
  // bounds, no type at all, and a STRING of an impossible length.
  predicate PassesSilently(d: Declared) {
    match d
    case Str(n) => !(1 <= LengthOr254(n) <= MAX_STRING_LENGTH)
    case ArrayOf(low, high, element) => high < low || StandIn(element)
    case NoType => true
    case Unrecognised(arrayLike) => arrayLike
    case Fixed(_) | WStr(_) | StructWord => false
  }

  // A stand-in has no readable type, and the table calls it unknown, or it passes silently.
  lemma {:induction false} StandInsAreUnreadable(d: Declared)
    ensures StandIn(d) ==> !MapDeclaredType(d).Supported()
    ensures StandIn(d) <==> PassesSilently(d) || (MapDeclaredType(d).reason == UnknownType && !d.StartsWithArray())
  {
  }

  predicate Warned(ms: seq<DbMember>, path: string) {
    exists m :: m in ms && IsWarnedOf(m, path)
  }

  predicate IsWarnedOf(m: DbMember, path: string) {
    m.path == path && !m.IsContainer() && StandIn(m.declared) && !PassesSilently(m.declared)
  }

  // The walk warns of exactly the members that have a stand-in size and do not pass silently.
  ghost predicate WarnsOf(w: Walked) {
    forall path :: OffsetsMayBeWrong(path) in w.warnings <==> Warned(w.members, path)
  }

  lemma {:induction false} WarnsOfBoth(first: Walked, rest: Walked, w: Walked)
    requires WarnsOf(first) && WarnsOf(rest)
    requires w == first.Then(rest)
    ensures WarnsOf(w)
  {
    forall path
      ensures Warned(w.members, path) <==> Warned(first.members, path) || Warned(rest.members, path)
    {
    }
  }

  lemma {:induction false} WarnsOfStruct(container: DbMember, inner: Walked, w: Walked)
    requires container.IsContainer() && WarnsOf(inner)
    requires w.members == [container] + inner.members && w.warnings == inner.warnings
    ensures WarnsOf(w)
  {
    forall path
      ensures Warned(w.members, path) <==> Warned(inner.members, path)
    {
      if m :| m in inner.members && IsWarnedOf(m, path) {
        assert m in w.members;
      }
    }
  }

  lemma {:induction false} LeafWarns(path: string, d: Declared, start: nat, comment: string, w: Walked)
    requires d != StructWord && w.members == [Leaf(path, d, start, comment)] && w.warnings == LeafWarnings(path, d)
    ensures WarnsOf(w)
  {
    StandInsAreUnreadable(d);
    var m := Leaf(path, d, start, comment);
    assert m.path == path && m.declared == d;
    if StandIn(d) && !PassesSilently(d) {
      assert m in w.members;
    }
  }

  lemma {:induction false} WalkNodeWarns(node: MemberNode, position: nat, count: nat, prefix: string, depth: nat)
    ensures WarnsOf(WalkNode(node, position, count, prefix, depth))
    decreases node
  {
    var path := PathOf(prefix, node.name);
    var w := WalkNode(node, position, count, prefix, depth);
    if node.IsStruct() {
      var start := ToWord(position);
      var inner := Walk(node.children, start, count + 1, path, depth + 1);
      var end := ToWord(inner.position);
      WalkWarns(node.children, start, count + 1, path, depth + 1);
      WarnsOfStruct(Container(path, start, end, node.comment), inner, w);
    } else {
      LeafWarns(path, node.declared, LeafStart(node.declared, position), node.comment, w);
    }
  }

  // Of what it lists, the walk warns of exactly the members laid out with a stand-in size that does
  // not pass silently.
  lemma {:induction false} WalkWarns(nodes: seq<MemberNode>, position: nat, count: nat, prefix: string, depth: nat)
    ensures WarnsOf(Walk(nodes, position, count, prefix, depth))
    decreases nodes
  {
    if depth <= MAX_NESTING && nodes != [] && count < MAX_MEMBERS {
      var first := WalkNode(nodes[0], position, count, prefix, depth);
      var rest := Walk(nodes[1..], first.position, count + |first.members|, prefix, depth);
      WalkNodeWarns(nodes[0], position, count, prefix, depth);
      WalkWarns(nodes[1..], first.position, count + |first.members|, prefix, depth);
      WalkCons(nodes, position, count, prefix, depth, first, rest);
      WarnsOfBoth(first, rest, Walk(nodes, position, count, prefix, depth));
    }
  }

  // A block without warnings has every size right exactly when nothing in it passes silently.
  lemma {:induction false} NoWarningsMeansKnownIff(nodes: seq<MemberNode>)
    requires Walk(nodes, 0, 0, "", 0).warnings == []
    ensures (forall m :: m in BlockMembers(nodes) && !m.IsContainer() ==> !StandIn(m.declared))
            <==> (forall m :: m in BlockMembers(nodes) && !m.IsContainer() ==> !PassesSilently(m.declared))
  {
    var w := Walk(nodes, 0, 0, "", 0);
    WalkWarns(nodes, 0, 0, "", 0);
    forall m | m in w.members && !m.IsContainer()
      ensures StandIn(m.declared) <==> PassesSilently(m.declared)
    {
      StandInsAreUnreadable(m.declared);
      assert !Warned(w.members, m.path);
    }
  }

  // A two-dimensional array is laid out as one byte, without a warning; what follows is misplaced.
  lemma {:induction false} TwoDimensionsPassSilently(name: string, next: string)
    ensures var nodes := [MemberNode(name, Unrecognised(true), "", []), MemberNode(next, Fixed(Byte), "", [])];
            var w := Walk(nodes, 0, 0, "", 0);
            w.warnings == [] && |w.members| == 2 && w.members[1].byteOffset == 1
  {
    var a, b := MemberNode(name, Unrecognised(true), "", []), MemberNode(next, Fixed(Byte), "", []);
    assert [a, b][1..] == [b] && [b][1..] == [];
    var first := WalkNode(a, 0, 0, "", 0);
    var second := WalkNode(b, 8, 1, "", 0);
    WalkCons([b], 8, 1, "", 0, second, Walk([], second.position, 2, "", 0));
    WalkCons([a, b], 0, 0, "", 0, first, Walk([b], 8, 1, "", 0));
  }
}
