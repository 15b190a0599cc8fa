// What a layout lists: the declaration's members in order, under their full names, with the types
// the table gives them.
module Listing {
  import opened Wrappers
  import opened Decoding
  import opened S7Types
  import opened DbLayout
  import opened LayoutLaws

  // ---------------------------------------------------------------- the types listed

  predicate AsInTable(m: DbMember) {
    && m.bitOffset <= 7
    && if m.IsContainer() then m.dataType.None?
       else
         var info := MapDeclaredType(m.declared);
         m.dataType == info.dataType && m.length == info.length && m.size == info.size
  }

  lemma {:induction false} LeafIsAsInTable(path: string, d: Declared, start: nat, comment: string)
    requires d != StructWord
    ensures AsInTable(Leaf(path, d, start, comment))
  {
    TypeTableAgreesWithDecoder(d);
    if MapDeclaredType(d).IsBit() {
      assert MapDeclaredType(d).size == 1;
    }
  }

  lemma {:induction false} NodeIsAsInTable(node: MemberNode, position: nat, count: nat, prefix: string, depth: nat,
                                           m: DbMember)
    requires m in WalkNode(node, position, count, prefix, depth).members
    ensures AsInTable(m)
    decreases node
  {
    if node.IsStruct() {
      var path, start := PathOf(prefix, node.name), ToWord(position);
      var inner := Walk(node.children, start, count + 1, path, depth + 1);
      if m in inner.members {
        WalkIsAsInTable(node.children, start, count + 1, path, depth + 1, m);
      }
    } else {
      LeafIsAsInTable(PathOf(prefix, node.name), node.declared, LeafStart(node.declared, position), node.comment);
    }
  }

  lemma {:induction false} WalkIsAsInTable(nodes: seq<MemberNode>, position: nat, count: nat, prefix: string,
                                           depth: nat, m: DbMember)
    requires m in Walk(nodes, position, count, prefix, depth).members
    ensures AsInTable(m)
    decreases nodes
  {
    var first := WalkNode(nodes[0], position, count, prefix, depth);
    var rest := Walk(nodes[1..], first.position, count + |first.members|, prefix, depth);
    WalkCons(nodes, position, count, prefix, depth, first, rest);
    if m in first.members {
      NodeIsAsInTable(nodes[0], position, count, prefix, depth, m);
    } else {
      WalkIsAsInTable(nodes[1..], first.position, count + |first.members|, prefix, depth, m);
    }
  }

  // ---------------------------------------------------------------- names and order

  datatype Item = Item(path: string, declared: Declared, comment: string)

  // Every declared member with its dotted path, a structure before its members.
  function ItemsOfNode(node: MemberNode, prefix: string): seq<Item>
    decreases node
  {
    var path := if prefix == "" then node.name else prefix + "." + node.name;
    if node.IsStruct() then [Item(path, StructWord, node.comment)] + Items(node.children, path)
    else [Item(path, node.declared, node.comment)]
  }

  function Items(nodes: seq<MemberNode>, prefix: string): seq<Item>
    decreases nodes
  {
    if nodes == [] then [] else ItemsOfNode(nodes[0], prefix) + Items(nodes[1..], prefix)
  }

  predicate Lists(ms: seq<DbMember>, items: seq<Item>) {
    |ms| == |items| && forall i :: 0 <= i < |ms| ==> Item(ms[i].path, ms[i].declared, ms[i].comment) == items[i]
  }

  lemma {:induction false} ListsConcat(a: seq<DbMember>, b: seq<DbMember>, x: seq<Item>, y: seq<Item>)
    requires Lists(a, x) && Lists(b, y)
    ensures Lists(a + b, x + y)
  {
  }

  lemma {:induction false} NodeListsInOrder(node: MemberNode, position: nat, count: nat, prefix: string, depth: nat)
    requires depth <= MAX_NESTING && count + CountNode(node) <= MAX_MEMBERS
    requires node.IsStruct() ==> ShallowEnough(node.children, depth + 1)
    ensures Lists(WalkNode(node, position, count, prefix, depth).members, ItemsOfNode(node, prefix))
    decreases node
  {
    if node.IsStruct() {
      var path, start := PathOf(prefix, node.name), ToWord(position);
      var inner := Walk(node.children, start, count + 1, path, depth + 1);
      var end := ToWord(inner.position);
      WalkListsInOrder(node.children, start, count + 1, path, depth + 1);
      WalkStruct(node, position, count, prefix, depth, path, start, inner, end);
      ListsConcat([Container(path, start, end, node.comment)], inner.members,
                  [Item(path, StructWord, node.comment)], Items(node.children, path));
    }
  }

  // With the caps not hit, exactly the declared members are listed, in declaration order, each
  // under its full path, with its declared type and its comment.
  lemma {:induction false} WalkListsInOrder(nodes: seq<MemberNode>, position: nat, count: nat, prefix: string,
                                            depth: nat)
    requires Fits(nodes, count, depth)
    ensures Lists(Walk(nodes, position, count, prefix, depth).members, Items(nodes, prefix))
    decreases nodes
  {
    if nodes != [] {
      var n := CountNode(nodes[0]);
      FitsCons(nodes, count, depth, n);
      NodeIsListedWhole(nodes[0], position, count, prefix, depth);
      NodeListsInOrder(nodes[0], position, count, prefix, depth);
      var first := WalkNode(nodes[0], position, count, prefix, depth);
      var rest := Walk(nodes[1..], first.position, count + n, prefix, depth);
      WalkListsInOrder(nodes[1..], first.position, count + n, prefix, depth);
      WalkCons(nodes, position, count, prefix, depth, first, rest);
      ListsConcat(first.members, rest.members, ItemsOfNode(nodes[0], prefix), Items(nodes[1..], prefix));
    }
  }
}
