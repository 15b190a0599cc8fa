// What every computed layout satisfies: members never overlap, the layout is the least one the
// S7 rules allow, a structure is laid out as its own block, and appending moves nothing.
module LayoutLaws {
  import opened Wrappers
  import opened Decoding
  import opened S7Types
  import opened DbLayout

  // ---------------------------------------------------------------- the walk, one step at a time

  lemma {:induction false} WalkStruct(node: MemberNode, position: nat, count: nat, prefix: string, depth: nat,
                                      path: string, start: nat, inner: Walked, end: nat)
    requires node.IsStruct() && path == PathOf(prefix, node.name) && start == ToWord(position)
    requires inner == Walk(node.children, start, count + 1, path, depth + 1) && end == ToWord(inner.position)
    ensures WalkNode(node, position, count, prefix, depth)
            == Walked([Container(path, start, end, node.comment)] + inner.members, end, inner.warnings)
  {
  }

  lemma {:induction false} WordsAreBytes(position: nat, words: nat)
    requires position == 16 * words
    ensures 8 * (position / 8) == position && position / 8 == 2 * words
  {
  }

  lemma {:induction false} BlockLength(nodes: seq<MemberNode>, position: nat)
    requires position == Walk(nodes, 0, 0, "", 0).position
    ensures 8 * TotalBytes(nodes) == ToWord(position) && TotalBytes(nodes) % 2 == 0 && position <= 8 * TotalBytes(nodes)
  {
    var end := ToWord(position);
    ToWordIsLeast(position, 0);
    WordsAreBytes(end, end / 16);
  }

  // ---------------------------------------------------------------- single members

  // The boundary, in bits, a member that is not a structure has to start on.
  function Granule(d: Declared): nat {
    if d.StartsWithArray() || MapDeclaredType(d).alignment == 2 then 16
    else if MapDeclaredType(d).IsBit() then 1
    else 8
  }

  lemma {:induction false} LeafSpan(path: string, d: Declared, start: nat, comment: string)
    requires d != StructWord && start % Granule(d) == 0
    ensures var m := Leaf(path, d, start, comment);
            && m.Start() == start && m.End() == start + LeafBits(d) && m.Start() < m.End()
            && m.bitOffset <= 7 && !m.IsContainer()
  {
    TypeTableAgreesWithDecoder(d);
    var byte, bit := start / 8, start % 8;
    assert start == 8 * byte + bit;
    LeafAt(path, d, start, comment, byte, bit);
  }

  // Greedy placement: at most 15 padding bits, and no admissible position was passed over.
  lemma {:induction false} LeafIsPlacedGreedily(path: string, d: Declared, position: nat, comment: string, other: nat)
    requires d != StructWord
    ensures var start := LeafStart(d, position);
            var m := Leaf(path, d, start, comment);
            && position <= start <= position + 15 && start % Granule(d) == 0
            && (position <= other && other % Granule(d) == 0 ==> start <= other)
            && m.Start() == start && m.End() == start + LeafBits(d) && m.Start() < m.End()
            && m.bitOffset <= 7 && !m.IsContainer()
  {
    TypeTableAgreesWithDecoder(d);
    ToByteIsLeast(position, other);
    ToWordIsLeast(position, other);
    LeafSpan(path, d, LeafStart(d, position), comment);
  }

  lemma {:induction false} ContainerSpan(path: string, start: nat, end: nat, comment: string)
    requires start % 16 == 0 && end % 16 == 0 && start <= end
    ensures Container(path, start, end, comment).Start() == start
    ensures Container(path, start, end, comment).End() == end
  {
  }

  // ---------------------------------------------------------------- no overlap, at any nesting

  predicate Within(ms: seq<DbMember>, low: nat, high: nat) {
    forall i :: 0 <= i < |ms| ==> low <= ms[i].Start() <= ms[i].End() <= high
  }

  // A later member lies after an earlier one, unless the earlier one is a structure around it.
  predicate Nested(earlier: DbMember, later: DbMember) {
    || earlier.End() <= later.Start()
    || (earlier.IsContainer() && earlier.Start() <= later.Start() && later.End() <= earlier.End())
  }

  predicate Laminar(ms: seq<DbMember>) {
    forall i, j :: 0 <= i < j < |ms| ==> Nested(ms[i], ms[j])
  }

  lemma {:induction false} LaminarConcat(a: seq<DbMember>, b: seq<DbMember>, low: nat, mid: nat, high: nat)
    requires Within(a, low, mid) && Within(b, mid, high) && Laminar(a) && Laminar(b)
    requires low <= mid <= high
    ensures Within(a + b, low, high) && Laminar(a + b)
  {
  }

  lemma {:induction false} WalkNodeIsLaminar(node: MemberNode, position: nat, count: nat, prefix: string, depth: nat)
    ensures var w := WalkNode(node, position, count, prefix, depth);
            Within(w.members, position, w.position) && Laminar(w.members)
    decreases node
  {
    var path := PathOf(prefix, node.name);
    if node.IsStruct() {
      var start := ToWord(position);
      var inner := Walk(node.children, start, count + 1, path, depth + 1);
      var end := ToWord(inner.position);
      ToWordIsLeast(position, 0);
      ToWordIsLeast(inner.position, 0);
      WalkIsLaminar(node.children, start, count + 1, path, depth + 1);
      LaminarStruct(path, start, end, node.comment, inner.members, position, inner.position);
      WalkStruct(node, position, count, prefix, depth, path, start, inner, end);
    } else {
      LeafIsPlacedGreedily(path, node.declared, position, node.comment, 0);
    }
  }

  lemma {:induction false} LaminarStruct(path: string, start: nat, end: nat, comment: string, inner: seq<DbMember>,
                                         low: nat, mid: nat)
    requires start % 16 == 0 && end % 16 == 0 && low <= start <= mid <= end
    requires Within(inner, start, mid) && Laminar(inner)
    ensures var ms := [Container(path, start, end, comment)] + inner; Within(ms, low, end) && Laminar(ms)
  {
    ContainerSpan(path, start, end, comment);
  }

  // Holds at any nesting, whether or not the member and nesting caps are hit.
  lemma {:induction false} WalkIsLaminar(nodes: seq<MemberNode>, position: nat, count: nat, prefix: string, depth: nat)
    ensures var w := Walk(nodes, position, count, prefix, depth);
            Within(w.members, position, w.position) && Laminar(w.members)
    decreases nodes
  {
    if depth <= MAX_NESTING && nodes != [] && count < MAX_MEMBERS {
      var first := WalkNode(nodes[0], position, count, prefix, depth);
      var rest := Walk(nodes[1..], first.position, count + |first.members|, prefix, depth);
      WalkNodeIsLaminar(nodes[0], position, count, prefix, depth);
      WalkIsLaminar(nodes[1..], first.position, count + |first.members|, prefix, depth);
      LaminarConcat(first.members, rest.members, position, first.position, rest.position);
      WalkCons(nodes, position, count, prefix, depth, first, rest);
    }
  }

  // Leaf members occupy strictly increasing, disjoint bit ranges inside an even block length.
  lemma {:induction false} BlockHasNoOverlap(nodes: seq<MemberNode>)
    ensures var ms := BlockMembers(nodes);
            && TotalBytes(nodes) % 2 == 0
            && Laminar(ms)
            && Within(ms, 0, 8 * TotalBytes(nodes))
            && LeavesApart(ms)
  {
    var w := Walk(nodes, 0, 0, "", 0);
    WalkIsLaminar(nodes, 0, 0, "", 0);
    BlockLength(nodes, w.position);
    WithinMore(w.members, 0, w.position, 8 * TotalBytes(nodes));
    LaminarLeaves(w.members);
  }

  // Whatever is listed after a leaf lies after it.
  predicate LeavesApart(ms: seq<DbMember>) {
    forall i, j :: 0 <= i < j < |ms| && !ms[i].IsContainer() ==> ms[i].End() <= ms[j].Start()
  }

  lemma {:induction false} LaminarLeaves(ms: seq<DbMember>)
    requires Laminar(ms)
    ensures LeavesApart(ms)
  {
    forall i, j | 0 <= i < j < |ms| && !ms[i].IsContainer()
      ensures ms[i].End() <= ms[j].Start()
    {
      assert Nested(ms[i], ms[j]);
    }
  }

  lemma {:induction false} WithinMore(ms: seq<DbMember>, low: nat, high: nat, higher: nat)
    requires Within(ms, low, high) && high <= higher
    ensures Within(ms, low, higher)
  {
  }

  // ---------------------------------------------------------------- well-typed members

  predicate WellTyped(m: DbMember) {
    m.dataType.Some? ==>
      && !m.IsContainer()
      && SizeOf(m.dataType.value, m.length) == Ok(m.size)
      && m.bitOffset <= 7
      && (m.dataType.value != BOOL ==> m.bitOffset == 0)
  }

  lemma {:induction false} WalkNodeIsWellTyped(node: MemberNode, position: nat, count: nat, prefix: string, depth: nat)
    ensures forall m :: m in WalkNode(node, position, count, prefix, depth).members ==> WellTyped(m)
    decreases node
  {
    if node.IsStruct() {
      WalkIsWellTyped(node.children, ToWord(position), count + 1, PathOf(prefix, node.name), depth + 1);
    } else {
      TypeTableAgreesWithDecoder(node.declared);
    }
  }

  // Every readable member carries the width and bit position its data type decodes with.
  lemma {:induction false} WalkIsWellTyped(nodes: seq<MemberNode>, position: nat, count: nat, prefix: string,
                                           depth: nat)
    ensures forall m :: m in Walk(nodes, position, count, prefix, depth).members ==> WellTyped(m)
    decreases nodes
  {
    if depth <= MAX_NESTING && nodes != [] && count < MAX_MEMBERS {
      var first := WalkNode(nodes[0], position, count, prefix, depth);
      WalkNodeIsWellTyped(nodes[0], position, count, prefix, depth);
      WalkIsWellTyped(nodes[1..], first.position, count + |first.members|, prefix, depth);
    }
  }

  // ---------------------------------------------------------------- the caps

  function CountNode(node: MemberNode): (n: nat)
    ensures n >= 1
    decreases node
  {
    if node.IsStruct() then 1 + Count(node.children) else 1
  }

  // Members a declaration lists, structures included.
  function Count(nodes: seq<MemberNode>): nat
    decreases nodes
  {
    if nodes == [] then 0 else CountNode(nodes[0]) + Count(nodes[1..])
  }

  predicate ShallowEnough(nodes: seq<MemberNode>, depth: nat)
    decreases nodes
  {
    nodes == [] ||
    (&& depth <= MAX_NESTING
     && (nodes[0].IsStruct() ==> ShallowEnough(nodes[0].children, depth + 1))
     && ShallowEnough(nodes[1..], depth))
  }

  predicate Fits(nodes: seq<MemberNode>, count: nat, depth: nat) {
    count + Count(nodes) <= MAX_MEMBERS && ShallowEnough(nodes, depth)
  }

  lemma {:induction false} FitsCons(nodes: seq<MemberNode>, count: nat, depth: nat, n: nat)
    requires Fits(nodes, count, depth) && nodes != [] && n == CountNode(nodes[0])
    ensures depth <= MAX_NESTING && count + n <= MAX_MEMBERS && count < MAX_MEMBERS
            && Fits(nodes[1..], count + n, depth)
    ensures nodes[0].IsStruct() ==> ShallowEnough(nodes[0].children, depth + 1)
  {
  }

  // Nothing is dropped exactly when the declaration fits the caps.
  lemma {:induction false} NothingDroppedIffFits(nodes: seq<MemberNode>, position: nat, count: nat, prefix: string,
                                                 depth: nat)
    requires count <= MAX_MEMBERS
    ensures var n := |Walk(nodes, position, count, prefix, depth).members|;
            && n <= Count(nodes) && count + n <= MAX_MEMBERS
            && (n == Count(nodes) <==> Fits(nodes, count, depth))
    decreases nodes, 0
  {
    if depth <= MAX_NESTING && nodes != [] && count < MAX_MEMBERS {
      var first := WalkNode(nodes[0], position, count, prefix, depth);
      NothingDroppedFromNode(nodes[0], position, count, prefix, depth);
      var rest := Walk(nodes[1..], first.position, count + |first.members|, prefix, depth);
      NothingDroppedIffFits(nodes[1..], first.position, count + |first.members|, prefix, depth);
      WalkCons(nodes, position, count, prefix, depth, first, rest);
    }
  }

  lemma {:induction false} NothingDroppedFromNode(node: MemberNode, position: nat, count: nat, prefix: string,
                                                  depth: nat)
    requires depth <= MAX_NESTING && count < MAX_MEMBERS
    ensures var n := |WalkNode(node, position, count, prefix, depth).members|;
            && 1 <= n <= CountNode(node) && count + n <= MAX_MEMBERS
            && (n == CountNode(node)
                <==> count + CountNode(node) <= MAX_MEMBERS
                     && (node.IsStruct() ==> ShallowEnough(node.children, depth + 1)))
    decreases node, 0
  {
    if node.IsStruct() {
      NothingDroppedIffFits(node.children, ToWord(position), count + 1, PathOf(prefix, node.name), depth + 1);
    }
  }

  lemma {:induction false} NodeIsListedWhole(node: MemberNode, position: nat, count: nat, prefix: string, depth: nat)
    requires depth <= MAX_NESTING && count + CountNode(node) <= MAX_MEMBERS
    requires node.IsStruct() ==> ShallowEnough(node.children, depth + 1)
    ensures |WalkNode(node, position, count, prefix, depth).members| == CountNode(node)
  {
    NothingDroppedFromNode(node, position, count, prefix, depth);
  }

  lemma {:induction false} ShallowAtLessDepth(nodes: seq<MemberNode>, depth: nat, lessDepth: nat)
    requires ShallowEnough(nodes, depth) && lessDepth <= depth
    ensures ShallowEnough(nodes, lessDepth)
    decreases nodes
  {
    if nodes != [] {
      if nodes[0].IsStruct() {
        ShallowAtLessDepth(nodes[0].children, depth + 1, lessDepth + 1);
      }
      ShallowAtLessDepth(nodes[1..], depth, lessDepth);
    }
  }

  // ---------------------------------------------------------------- the least legal layout

  // The S7 rules as constraints on any placement of one declared member and what it contains,
  // listed in declaration order and starting no earlier than `low`.
  predicate LegalNode(node: MemberNode, ms: seq<DbMember>, low: nat)
    decreases node
  {
    && |ms| == CountNode(node)
    && low <= ms[0].Start()
    && if node.IsStruct() then
         && ms[0].Start() % 16 == 0 && ms[0].End() % 16 == 0
         && Legal(node.children, ms[1..], ms[0].Start(), ms[0].End())
       else
         && ms[0].Start() % Granule(node.declared) == 0
         && ms[0].End() == ms[0].Start() + LeafBits(node.declared)
  }

  // Members follow one another between `low` and `high`.
  predicate Legal(nodes: seq<MemberNode>, ms: seq<DbMember>, low: nat, high: nat)
    decreases nodes
  {
    if nodes == [] then ms == [] && low <= high
    else
      var n := CountNode(nodes[0]);
      && n <= |ms|
      && LegalNode(nodes[0], ms[..n], low)
      && Legal(nodes[1..], ms[n..], ms[0].End(), high)
  }

  lemma {:induction false} LegalStruct(node: MemberNode, path: string, inner: seq<DbMember>, low: nat, start: nat,
                                       mid: nat, end: nat)
    requires node.IsStruct() && low <= start && start % 16 == 0 && end % 16 == 0 && start <= mid <= end
    requires |inner| == Count(node.children) && Legal(node.children, inner, start, mid)
    ensures LegalNode(node, [Container(path, start, end, node.comment)] + inner, low)
    ensures Container(path, start, end, node.comment).End() == end
  {
    ContainerSpan(path, start, end, node.comment);
    LegalWithMoreRoom(node.children, inner, start, mid, end);
    assert ([Container(path, start, end, node.comment)] + inner)[1..] == inner;
  }

  lemma {:induction false} LegalCons(nodes: seq<MemberNode>, first: seq<DbMember>, rest: seq<DbMember>, low: nat,
                                     high: nat)
    requires nodes != [] && LegalNode(nodes[0], first, low) && Legal(nodes[1..], rest, first[0].End(), high)
    ensures Legal(nodes, first + rest, low, high)
  {
    assert (first + rest)[..|first|] == first && (first + rest)[|first|..] == rest;
  }

  lemma {:induction false} LegalStructParts(node: MemberNode, ms: seq<DbMember>, low: nat)
    requires LegalNode(node, ms, low) && node.IsStruct()
    ensures ms != [] && low <= ms[0].Start() && ms[0].Start() % 16 == 0 && ms[0].End() % 16 == 0
    ensures Legal(node.children, ms[1..], ms[0].Start(), ms[0].End())
  {
  }

  lemma {:induction false} LegalUncons(nodes: seq<MemberNode>, ms: seq<DbMember>, low: nat, high: nat, n: nat)
    requires Legal(nodes, ms, low, high) && nodes != [] && n == CountNode(nodes[0])
    ensures 1 <= n <= |ms| && LegalNode(nodes[0], ms[..n], low) && Legal(nodes[1..], ms[n..], ms[0].End(), high)
    ensures ms[..n][0] == ms[0]
  {
  }

  lemma {:induction false} WalkNodeIsLegal(node: MemberNode, position: nat, count: nat, prefix: string, depth: nat)
    requires depth <= MAX_NESTING && count + CountNode(node) <= MAX_MEMBERS
    requires node.IsStruct() ==> ShallowEnough(node.children, depth + 1)
    ensures var w := WalkNode(node, position, count, prefix, depth);
            LegalNode(node, w.members, position) && w.members[0].End() == w.position
    decreases node, 0
  {
    var path := PathOf(prefix, node.name);
    if node.IsStruct() {
      var start := ToWord(position);
      var inner := Walk(node.children, start, count + 1, path, depth + 1);
      ToWordIsLeast(position, 0);
      ToWordIsLeast(inner.position, 0);
      WalkIsLegal(node.children, start, count + 1, path, depth + 1);
      NothingDroppedIffFits(node.children, start, count + 1, path, depth + 1);
      LegalStruct(node, path, inner.members, position, start, inner.position, ToWord(inner.position));
    } else {
      LeafIsPlacedGreedily(path, node.declared, position, node.comment, 0);
    }
  }

  lemma {:induction false} LegalWithMoreRoom(nodes: seq<MemberNode>, ms: seq<DbMember>, low: nat, high: nat,
                                             higher: nat)
    requires Legal(nodes, ms, low, high) && high <= higher
    ensures Legal(nodes, ms, low, higher)
    decreases nodes
  {
    if nodes != [] {
      LegalWithMoreRoom(nodes[1..], ms[CountNode(nodes[0])..], ms[0].End(), high, higher);
    }
  }

  lemma {:induction false} LegalFirst(nodes: seq<MemberNode>, position: nat, count: nat, prefix: string, depth: nat)
    returns (first: Walked)
    requires nodes != [] && depth <= MAX_NESTING && count + CountNode(nodes[0]) <= MAX_MEMBERS
    requires nodes[0].IsStruct() ==> ShallowEnough(nodes[0].children, depth + 1)
    ensures LegalNode(nodes[0], first.members, position) && |first.members| == CountNode(nodes[0])
    ensures first.members[0].End() == first.position
    ensures Walk(nodes, position, count, prefix, depth)
            == first.Then(Walk(nodes[1..], first.position, count + |first.members|, prefix, depth))
    decreases nodes, 0
  {
    WalkNodeIsLegal(nodes[0], position, count, prefix, depth);
    first := WalkNode(nodes[0], position, count, prefix, depth);
    WalkCons(nodes, position, count, prefix, depth, first,
             Walk(nodes[1..], first.position, count + |first.members|, prefix, depth));
  }

  // The first member, and that the others still fit.
  lemma {:induction false} LegalStep(nodes: seq<MemberNode>, tail: seq<MemberNode>, position: nat, count: nat,
                                     prefix: string, depth: nat)
    returns (first: Walked, n: nat)
    requires nodes != [] && tail == nodes[1..] && Fits(nodes, count, depth)
    ensures Fits(tail, count + n, depth) && first.members != []
    ensures LegalNode(nodes[0], first.members, position) && first.members[0].End() == first.position
    ensures Walk(nodes, position, count, prefix, depth)
            == first.Then(Walk(tail, first.position, count + n, prefix, depth))
    decreases nodes, 1
  {
    n := CountNode(nodes[0]);
    FitsCons(nodes, count, depth, n);
    first := LegalFirst(nodes, position, count, prefix, depth);
  }

  // The computed layout obeys the rules ...
  lemma {:induction false} WalkIsLegal(nodes: seq<MemberNode>, position: nat, count: nat, prefix: string, depth: nat)
    requires Fits(nodes, count, depth)
    ensures var w := Walk(nodes, position, count, prefix, depth);
            Legal(nodes, w.members, position, w.position)
    decreases nodes, 2
  {
    if nodes != [] {
      var tail := nodes[1..];
      var first, n := LegalStep(nodes, tail, position, count, prefix, depth);
      WalkIsLegal(tail, first.position, count + n, prefix, depth);
      var rest := Walk(tail, first.position, count + n, prefix, depth);
      LegalCons(nodes, first.members, rest.members, position, rest.position);
    }
  }

  // a places every member no later than b does.
  predicate NoLater(a: seq<DbMember>, b: seq<DbMember>) {
    |a| == |b| && forall i :: 0 <= i < |a| ==> NoLaterOne(a[i], b[i])
  }

  predicate NoLaterOne(a: DbMember, b: DbMember) {
    a.Start() <= b.Start() && a.End() <= b.End()
  }

  lemma {:induction false} NoLaterConcat(a: seq<DbMember>, b: seq<DbMember>, ms: seq<DbMember>)
    requires |a| <= |ms| && NoLater(a, ms[..|a|]) && NoLater(b, ms[|a|..])
    ensures NoLater(a + b, ms)
  {
    forall i | 0 <= i < |a + b|
      ensures NoLaterOne((a + b)[i], ms[i])
    {
      if i < |a| {
        assert ms[..|a|][i] == ms[i];
      } else {
        assert ms[|a|..][i - |a|] == ms[i];
      }
    }
  }

  lemma {:induction false} LeastStruct(node: MemberNode, path: string, inner: seq<DbMember>, start: nat, end: nat,
                                       ms: seq<DbMember>)
    requires start % 16 == 0 && end % 16 == 0 && start <= end && ms != []
    requires start <= ms[0].Start() && end <= ms[0].End() && NoLater(inner, ms[1..])
    ensures NoLater([Container(path, start, end, node.comment)] + inner, ms)
  {
    ContainerSpan(path, start, end, node.comment);
    NoLaterConcat([Container(path, start, end, node.comment)], inner, ms);
  }

  lemma {:induction false} WalkNodeIsLeast(node: MemberNode, position: nat, count: nat, prefix: string, depth: nat,
                                           ms: seq<DbMember>, low: nat)
    requires depth <= MAX_NESTING && count + CountNode(node) <= MAX_MEMBERS
    requires node.IsStruct() ==> ShallowEnough(node.children, depth + 1)
    requires LegalNode(node, ms, low) && position <= low
    ensures var w := WalkNode(node, position, count, prefix, depth);
            NoLater(w.members, ms) && w.position <= ms[0].End()
    decreases node, 0
  {
    var path := PathOf(prefix, node.name);
    if node.IsStruct() {
      var start := ToWord(position);
      var inner := Walk(node.children, start, count + 1, path, depth + 1);
      var end := ToWord(inner.position);
      LegalStructParts(node, ms, low);
      ToWordIsLeast(position, ms[0].Start());
      WalkIsLeast(node.children, start, count + 1, path, depth + 1, ms[1..], ms[0].Start(), ms[0].End());
      ToWordIsLeast(inner.position, ms[0].End());
      LeastStruct(node, path, inner.members, start, end, ms);
      WalkStruct(node, position, count, prefix, depth, path, start, inner, end);
    } else {
      LeafIsPlacedGreedily(path, node.declared, position, node.comment, ms[0].Start());
    }
  }

  lemma {:induction false} LeastCons(first: Walked, rest: Walked, w: Walked, ms: seq<DbMember>, n: nat, high: nat)
    requires w == first.Then(rest) && n <= |ms| && NoLater(first.members, ms[..n]) && NoLater(rest.members, ms[n..])
    requires rest.position <= high
    ensures NoLater(w.members, ms) && w.position <= high
  {
    NoLaterConcat(first.members, rest.members, ms);
  }

  lemma {:induction false} LeastFirst(nodes: seq<MemberNode>, position: nat, count: nat, prefix: string, depth: nat,
                                      ms: seq<DbMember>, low: nat)
    returns (first: Walked)
    requires nodes != [] && depth <= MAX_NESTING && count + CountNode(nodes[0]) <= MAX_MEMBERS
    requires nodes[0].IsStruct() ==> ShallowEnough(nodes[0].children, depth + 1)
    requires LegalNode(nodes[0], ms, low) && position <= low
    ensures |first.members| == CountNode(nodes[0]) == |ms| && NoLater(first.members, ms)
            && first.position <= ms[0].End()
    ensures Walk(nodes, position, count, prefix, depth)
            == first.Then(Walk(nodes[1..], first.position, count + |first.members|, prefix, depth))
    decreases nodes, 0
  {
    WalkNodeIsLeast(nodes[0], position, count, prefix, depth, ms, low);
    first := WalkNode(nodes[0], position, count, prefix, depth);
    WalkCons(nodes, position, count, prefix, depth, first,
             Walk(nodes[1..], first.position, count + |first.members|, prefix, depth));
  }

  // The first member, and what the others have to satisfy.
  lemma {:induction false} LeastStep(nodes: seq<MemberNode>, tail: seq<MemberNode>, position: nat, count: nat,
                                     prefix: string, depth: nat, ms: seq<DbMember>, low: nat, high: nat)
    returns (first: Walked, n: nat)
    requires nodes != [] && tail == nodes[1..] && position <= low
    requires Fits(nodes, count, depth) && Legal(nodes, ms, low, high)
    ensures 1 <= n <= |ms| && Fits(tail, count + n, depth) && Legal(tail, ms[n..], ms[0].End(), high)
    ensures NoLater(first.members, ms[..n]) && first.position <= ms[0].End()
    ensures Walk(nodes, position, count, prefix, depth)
            == first.Then(Walk(tail, first.position, count + n, prefix, depth))
    decreases nodes, 1
  {
    n := CountNode(nodes[0]);
    FitsCons(nodes, count, depth, n);
    LegalUncons(nodes, ms, low, high, n);
    first := LeastFirst(nodes, position, count, prefix, depth, ms[..n], low);
  }

  lemma {:induction false} LeastIfLegal(nodes: seq<MemberNode>, position: nat, count: nat, prefix: string, depth: nat,
                                        ms: seq<DbMember>, low: nat, high: nat)
    ensures Fits(nodes, count, depth) && Legal(nodes, ms, low, high) && position <= low ==>
              var w := Walk(nodes, position, count, prefix, depth); NoLater(w.members, ms) && w.position <= high
    decreases nodes, 2
  {
    if nodes != [] && Fits(nodes, count, depth) && Legal(nodes, ms, low, high) && position <= low {
      var tail := nodes[1..];
      var first, n := LeastStep(nodes, tail, position, count, prefix, depth, ms, low, high);
      LeastIfLegal(tail, first.position, count + n, prefix, depth, ms[n..], ms[0].End(), high);
      var rest := Walk(tail, first.position, count + n, prefix, depth);
      LeastCons(first, rest, first.Then(rest), ms, n, high);
    }
  }

  // ... and no placement that obeys them puts any member, structure or end earlier.
  lemma {:induction false} WalkIsLeast(nodes: seq<MemberNode>, position: nat, count: nat, prefix: string, depth: nat,
                                       ms: seq<DbMember>, low: nat, high: nat)
    requires Fits(nodes, count, depth)
    requires Legal(nodes, ms, low, high) && position <= low
    ensures var w := Walk(nodes, position, count, prefix, depth);
            NoLater(w.members, ms) && w.position <= high
    decreases nodes, 3
  {
    LeastIfLegal(nodes, position, count, prefix, depth, ms, low, high);
  }

  lemma {:induction false} LeastLength(position: nat, bytes: nat, otherBytes: nat)
    requires 8 * bytes == ToWord(position) && position <= 8 * otherBytes
    ensures otherBytes % 2 == 0 ==> bytes <= otherBytes
  {
    var half := otherBytes / 2;
    assert 8 * otherBytes == 16 * half + 8 * (otherBytes % 2);
    ToWordIsLeast(position, 16 * half);
  }

  // compute_layout yields the least legal placement of the block, and the least even length.
  lemma {:induction false} BlockIsTheLeastLegalLayout(nodes: seq<MemberNode>, other: seq<DbMember>, otherBytes: nat)
    requires Fits(nodes, 0, 0)
    ensures Legal(nodes, BlockMembers(nodes), 0, 8 * TotalBytes(nodes))
    ensures Legal(nodes, other, 0, 8 * otherBytes) ==> NoLater(BlockMembers(nodes), other)
    ensures Legal(nodes, other, 0, 8 * otherBytes) && otherBytes % 2 == 0 ==> TotalBytes(nodes) <= otherBytes
  {
    var w := Walk(nodes, 0, 0, "", 0);
    WalkIsLegal(nodes, 0, 0, "", 0);
    BlockLength(nodes, w.position);
    LegalWithMoreRoom(nodes, w.members, 0, w.position, 8 * TotalBytes(nodes));
    if Legal(nodes, other, 0, 8 * otherBytes) {
      WalkIsLeast(nodes, 0, 0, "", 0, other, 0, 8 * otherBytes);
      LeastLength(w.position, TotalBytes(nodes), otherBytes);
    }
  }

  // ---------------------------------------------------------------- structures are blocks

  // b is a, moved by whole words; only paths may differ besides.
  predicate Moved(a: seq<DbMember>, b: seq<DbMember>, words: nat) {
    |a| == |b| && forall i :: 0 <= i < |a| ==> MovedOne(a[i], b[i], words)
  }

  predicate MovedOne(a: DbMember, b: DbMember, words: nat) {
    b == a.(byteOffset := a.byteOffset + 2 * words, path := b.path)
  }

  lemma {:induction false} MovedConcat(a: seq<DbMember>, b: seq<DbMember>, a2: seq<DbMember>, b2: seq<DbMember>,
                                       words: nat)
    requires Moved(a, a2, words) && Moved(b, b2, words)
    ensures Moved(a + b, a2 + b2, words)
  {
  }

  predicate MovedWalked(w: Walked, w2: Walked, words: nat) {
    Moved(w.members, w2.members, words) && w2.position == w.position + 16 * words
  }

  lemma {:induction false} MovedCons(first: Walked, rest: Walked, first2: Walked, rest2: Walked, w: Walked, w2: Walked,
                                     words: nat)
    requires w == first.Then(rest) && w2 == first2.Then(rest2)
    requires MovedWalked(first, first2, words) && MovedWalked(rest, rest2, words)
    ensures MovedWalked(w, w2, words)
  {
    MovedConcat(first.members, rest.members, first2.members, rest2.members, words);
  }

  lemma {:induction false} RoundUpMoves(position: nat, position2: nat, words: nat)
    requires position2 == position + 16 * words
    ensures ToByte(position2) == ToByte(position) + 16 * words
    ensures ToWord(position2) == ToWord(position) + 16 * words
    ensures position2 / 8 == position / 8 + 2 * words
    ensures position2 % 8 == position % 8
  {
  }

  lemma {:induction false} MovedLeaf(path: string, path2: string, d: Declared, position: nat, position2: nat,
                                     words: nat, comment: string)
    requires position2 == position + 16 * words
    ensures LeafStart(d, position2) == LeafStart(d, position) + 16 * words
    ensures Moved([Leaf(path, d, LeafStart(d, position), comment)], [Leaf(path2, d, LeafStart(d, position2), comment)],
                  words)
  {
    RoundUpMoves(position, position2, words);
    RoundUpMoves(LeafStart(d, position), LeafStart(d, position2), words);
  }

  lemma {:induction false} MovedStruct(path: string, path2: string, start: nat, start2: nat, end: nat, end2: nat,
                                       comment: string, words: nat, inner: seq<DbMember>, inner2: seq<DbMember>)
    requires start <= end && Moved(inner, inner2, words)
    requires start2 == start + 16 * words && end2 == end + 16 * words
    ensures Moved([Container(path, start, end, comment)] + inner, [Container(path2, start2, end2, comment)] + inner2,
                  words)
  {
    RoundUpMoves(start, start2, words);
    MovedConcat([Container(path, start, end, comment)], inner, [Container(path2, start2, end2, comment)], inner2,
                words);
  }

  lemma {:induction false} MovedNode(node: MemberNode, position: nat, position2: nat, words: nat, count: nat,
                                     count2: nat, prefix: string, prefix2: string, depth: nat, depth2: nat)
    requires position2 == position + 16 * words
    requires depth <= MAX_NESTING && count + CountNode(node) <= MAX_MEMBERS
    requires depth2 <= MAX_NESTING && count2 + CountNode(node) <= MAX_MEMBERS
    requires node.IsStruct() ==> ShallowEnough(node.children, depth + 1) && ShallowEnough(node.children, depth2 + 1)
    ensures var w := WalkNode(node, position, count, prefix, depth);
            MovedWalked(w, WalkNode(node, position2, count2, prefix2, depth2), words)
    decreases node, 0
  {
    var path, path2 := PathOf(prefix, node.name), PathOf(prefix2, node.name);
    if node.IsStruct() {
      var start, start2 := ToWord(position), ToWord(position2);
      RoundUpMoves(position, position2, words);
      MovedWalk(node.children, start, start2, words, count + 1, count2 + 1, path, path2, depth + 1, depth2 + 1);
      var inner := Walk(node.children, start, count + 1, path, depth + 1);
      var inner2 := Walk(node.children, start2, count2 + 1, path2, depth2 + 1);
      var end, end2 := ToWord(inner.position), ToWord(inner2.position);
      RoundUpMoves(inner.position, inner2.position, words);
      ToWordIsLeast(inner.position, 0);
      MovedStruct(path, path2, start, start2, end, end2, node.comment, words, inner.members, inner2.members);
      WalkStruct(node, position, count, prefix, depth, path, start, inner, end);
      WalkStruct(node, position2, count2, prefix2, depth2, path2, start2, inner2, end2);
    } else {
      MovedLeaf(path, path2, node.declared, position, position2, words, node.comment);
    }
  }

  lemma {:induction false} MovedFirst(nodes: seq<MemberNode>, position: nat, position2: nat, words: nat, count: nat,
                                      count2: nat, prefix: string, prefix2: string, depth: nat, depth2: nat)
    returns (first: Walked, first2: Walked)
    requires nodes != [] && position2 == position + 16 * words
    requires depth <= MAX_NESTING && count + CountNode(nodes[0]) <= MAX_MEMBERS
    requires depth2 <= MAX_NESTING && count2 + CountNode(nodes[0]) <= MAX_MEMBERS
    requires nodes[0].IsStruct() ==>
               ShallowEnough(nodes[0].children, depth + 1) && ShallowEnough(nodes[0].children, depth2 + 1)
    ensures MovedWalked(first, first2, words) && |first.members| == CountNode(nodes[0])
    ensures Walk(nodes, position, count, prefix, depth)
            == first.Then(Walk(nodes[1..], first.position, count + |first.members|, prefix, depth))
    ensures Walk(nodes, position2, count2, prefix2, depth2)
            == first2.Then(Walk(nodes[1..], first2.position, count2 + |first.members|, prefix2, depth2))
    decreases nodes, 0
  {
    var node := nodes[0];
    first := WalkNode(node, position, count, prefix, depth);
    first2 := WalkNode(node, position2, count2, prefix2, depth2);
    MovedNode(node, position, position2, words, count, count2, prefix, prefix2, depth, depth2);
    NodeIsListedWhole(node, position, count, prefix, depth);
    var n, p, p2 := |first.members|, first.position, first2.position;
    WalkCons(nodes, position, count, prefix, depth, first, Walk(nodes[1..], p, count + n, prefix, depth));
    WalkCons(nodes, position2, count2, prefix2, depth2, first2, Walk(nodes[1..], p2, count2 + n, prefix2, depth2));
  }

  lemma {:induction false} MovedIfFits(nodes: seq<MemberNode>, position: nat, position2: nat, words: nat, count: nat,
                                       count2: nat, prefix: string, prefix2: string, depth: nat, depth2: nat)
    requires position2 == position + 16 * words
    ensures Fits(nodes, count, depth) && Fits(nodes, count2, depth2) ==>
              MovedWalked(Walk(nodes, position, count, prefix, depth), Walk(nodes, position2, count2, prefix2, depth2),
                          words)
    decreases nodes, 1
  {
    if nodes != [] && Fits(nodes, count, depth) && Fits(nodes, count2, depth2) {
      var n := CountNode(nodes[0]);
      FitsCons(nodes, count, depth, n);
      FitsCons(nodes, count2, depth2, n);
      var first, first2 := MovedFirst(nodes, position, position2, words, count, count2, prefix, prefix2, depth, depth2);
      var tail, p, p2 := nodes[1..], first.position, first2.position;
      MovedIfFits(tail, p, p2, words, count + n, count2 + n, prefix, prefix2, depth, depth2);
      var rest, rest2 := Walk(tail, p, count + n, prefix, depth), Walk(tail, p2, count2 + n, prefix2, depth2);
      MovedCons(first, rest, first2, rest2, first.Then(rest), first2.Then(rest2), words);
    }
  }

  // With the caps not hit, offsets depend on the starting word only.
  lemma {:induction false} MovedWalk(nodes: seq<MemberNode>, position: nat, position2: nat, words: nat, count: nat,
                                     count2: nat, prefix: string, prefix2: string, depth: nat, depth2: nat)
    requires position2 == position + 16 * words
    requires Fits(nodes, count, depth) && Fits(nodes, count2, depth2)
    ensures var w := Walk(nodes, position, count, prefix, depth);
            MovedWalked(w, Walk(nodes, position2, count2, prefix2, depth2), words)
    decreases nodes, 2
  {
    MovedIfFits(nodes, position, position2, words, count, count2, prefix, prefix2, depth, depth2);
  }

  // Walked from any word on, members are their own block moved there.
  lemma {:induction false} BlockMoved(nodes: seq<MemberNode>, start: nat, words: nat, count: nat, prefix: string,
                                      depth: nat)
    requires start == 16 * words && Fits(nodes, count, depth)
    ensures var w := Walk(nodes, start, count, prefix, depth);
            Moved(BlockMembers(nodes), w.members, words) && ToWord(w.position) == start + 8 * TotalBytes(nodes)
  {
    ShallowAtLessDepth(nodes, depth, 0);
    MovedWalk(nodes, 0, start, words, 0, count, "", prefix, 0, depth);
    var position, moved := Walk(nodes, 0, 0, "", 0).position, Walk(nodes, start, count, prefix, depth).position;
    RoundUpMoves(position, moved, words);
    BlockLength(nodes, position);
  }

  lemma {:induction false} StructParts(node: MemberNode, position: nat, count: nat, prefix: string, depth: nat)
    returns (words: nat, inner: seq<DbMember>)
    requires node.IsStruct() && count + CountNode(node) <= MAX_MEMBERS && ShallowEnough(node.children, depth + 1)
    ensures var end := 16 * words + 8 * TotalBytes(node.children);
            WalkNode(node, position, count, prefix, depth).members
            == [Container(PathOf(prefix, node.name), 16 * words, end, node.comment)] + inner
    ensures Moved(BlockMembers(node.children), inner, words)
  {
    var start, path := ToWord(position), PathOf(prefix, node.name);
    words := start / 16;
    ToWordIsLeast(position, 0);
    BlockMoved(node.children, start, words, count + 1, path, depth + 1);
    var walked := Walk(node.children, start, count + 1, path, depth + 1);
    WalkStruct(node, position, count, prefix, depth, path, start, walked, ToWord(walked.position));
    inner := walked.members;
  }

  // A structure, wherever it is declared, is its children's own block moved to the structure's
  // even start; its size is that block's length.
  lemma {:induction false} StructIsItsOwnBlock(node: MemberNode, position: nat, count: nat, prefix: string, depth: nat)
    requires node.IsStruct() && count + CountNode(node) <= MAX_MEMBERS && ShallowEnough(node.children, depth + 1)
    ensures var ms := WalkNode(node, position, count, prefix, depth).members;
            && ms[0].byteOffset % 2 == 0 && ms[0].IsContainer()
            && ms[0].size == TotalBytes(node.children)
            && Moved(BlockMembers(node.children), ms[1..], ms[0].byteOffset / 2)
  {
    var words, inner := StructParts(node, position, count, prefix, depth);
    var bits := 8 * TotalBytes(node.children);
    OwnBlock(PathOf(prefix, node.name), node.comment, 16 * words, 16 * words + bits, words, bits, inner);
  }

  lemma {:induction false} OwnBlock(path: string, comment: string, start: nat, end: nat, words: nat, blockBits: nat,
                                    inner: seq<DbMember>)
    requires start == 16 * words && end == start + blockBits && blockBits % 8 == 0
    ensures var ms := [Container(path, start, end, comment)] + inner;
            ms[0].byteOffset == 2 * words && ms[0].size == blockBits / 8 && ms[0].IsContainer() && ms[1..] == inner
  {
  }

  lemma {:induction false} LongerThen(first: Walked, rest: Walked, rest2: Walked)
    requires rest.members <= rest2.members
    ensures first.Then(rest).members <= first.Then(rest2).members
  {
  }

  // Members declared later never move members declared earlier, caps or not.
  lemma {:induction false} AppendingMovesNothing(a: seq<MemberNode>, b: seq<MemberNode>, position: nat, count: nat,
                                                 prefix: string, depth: nat)
    ensures Walk(a, position, count, prefix, depth).members <= Walk(a + b, position, count, prefix, depth).members
    decreases a
  {
    if depth <= MAX_NESTING && a != [] && count < MAX_MEMBERS {
      var first := WalkNode(a[0], position, count, prefix, depth);
      var n := count + |first.members|;
      AppendingMovesNothing(a[1..], b, first.position, n, prefix, depth);
      assert (a + b)[0] == a[0] && (a + b)[1..] == a[1..] + b;
      var rest, rest2 := Walk(a[1..], first.position, n, prefix, depth),
                         Walk(a[1..] + b, first.position, n, prefix, depth);
      WalkCons(a, position, count, prefix, depth, first, rest);
      WalkCons(a + b, position, count, prefix, depth, first, rest2);
      LongerThen(first, rest, rest2);
    }
  }

  // ---------------------------------------------------------------- paths

  predicate Named(nodes: seq<MemberNode>)
    decreases nodes
  {
    nodes == [] || (nodes[0].name != "" && Named(nodes[0].children) && Named(nodes[1..]))
  }

  predicate PathsUnder(prefix: string, a: seq<DbMember>, b: seq<DbMember>) {
    && |a| == |b|
    && forall i :: 0 <= i < |a| ==> a[i].path != "" && b[i] == a[i].(path := PathOf(prefix, a[i].path))
  }

  lemma {:induction false} PathsUnderConcat(prefix: string, a: seq<DbMember>, b: seq<DbMember>, a2: seq<DbMember>,
                                            b2: seq<DbMember>)
    requires PathsUnder(prefix, a, a2) && PathsUnder(prefix, b, b2)
    ensures PathsUnder(prefix, a + b, a2 + b2)
  {
  }

  lemma {:induction false} PathsUnderNested(prefix: string, name: string, base: seq<DbMember>, a: seq<DbMember>,
                                            b: seq<DbMember>)
    requires prefix != "" && name != ""
    requires PathsUnder(name, base, a) && PathsUnder(PathOf(prefix, name), base, b)
    ensures PathsUnder(prefix, a, b)
  {
    forall i | 0 <= i < |a|
      ensures a[i].path != "" && b[i] == a[i].(path := PathOf(prefix, a[i].path))
    {
      assert (prefix + "." + name) + "." + base[i].path == prefix + "." + (name + "." + base[i].path);
    }
  }

  lemma {:induction false} PrefixOnlyRenamesNode(node: MemberNode, position: nat, count: nat, prefix: string,
                                                 depth: nat)
    requires node.name != "" && Named(node.children) && prefix != ""
    ensures var w := WalkNode(node, position, count, "", depth);
            var w2 := WalkNode(node, position, count, prefix, depth);
            PathsUnder(prefix, w.members, w2.members) && w.position == w2.position
    decreases node
  {
    if node.IsStruct() {
      var start := ToWord(position);
      var path := PathOf(prefix, node.name);
      PrefixOnlyRenames(node.children, start, count + 1, node.name, depth + 1);
      PrefixOnlyRenames(node.children, start, count + 1, path, depth + 1);
      var base := Walk(node.children, start, count + 1, "", depth + 1).members;
      var own := Walk(node.children, start, count + 1, node.name, depth + 1);
      var own2 := Walk(node.children, start, count + 1, path, depth + 1);
      PathsUnderNested(prefix, node.name, base, own.members, own2.members);
      var end := ToWord(own.position);
      ToWordIsLeast(own.position, 0);
      PathsUnderConcat(prefix, [Container(node.name, start, end, node.comment)], own.members,
                       [Container(path, start, end, node.comment)], own2.members);
    }
  }

  // Walking under a prefix only puts that prefix, and a dot, in front of every path.
  lemma {:induction false} PrefixOnlyRenames(nodes: seq<MemberNode>, position: nat, count: nat, prefix: string,
                                             depth: nat)
    requires Named(nodes) && prefix != ""
    ensures var w := Walk(nodes, position, count, "", depth);
            var w2 := Walk(nodes, position, count, prefix, depth);
            PathsUnder(prefix, w.members, w2.members) && w.position == w2.position
    decreases nodes
  {
    if depth <= MAX_NESTING && nodes != [] && count < MAX_MEMBERS {
      PrefixOnlyRenamesNode(nodes[0], position, count, prefix, depth);
      var first := WalkNode(nodes[0], position, count, "", depth);
      var first2 := WalkNode(nodes[0], position, count, prefix, depth);
      var n := count + |first.members|;
      PrefixOnlyRenames(nodes[1..], first.position, n, prefix, depth);
      var rest, rest2 := Walk(nodes[1..], first.position, n, "", depth),
                         Walk(nodes[1..], first.position, n, prefix, depth);
      WalkCons(nodes, position, count, "", depth, first, rest);
      WalkCons(nodes, position, count, prefix, depth, first2, rest2);
      PathsUnderConcat(prefix, first.members, rest.members, first2.members, rest2.members);
    }
  }
}
