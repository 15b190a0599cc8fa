// Rebuilding the nested declaration of a data block from its classified source lines.
module DeclParser {
  import opened S7Types
  import opened DbLayout

  // Blank lines, comments and lines that are no declaration are Other.
  datatype Line =
    | Declaration(name: string, declared: Declared, comment: string)
    | StructOpen(name: string, comment: string)
    | EndStruct
    | Other

  datatype Header = Header(name: string, comment: string)

  // The members collected so far at each open level, and the structures that opened the levels.
  datatype Parse = Parse(levels: seq<seq<MemberNode>>, pending: seq<Header>)
  {
    predicate Valid() {
      |levels| == |pending| + 1
    }
  }

  const Start: Parse := Parse([[]], [])

  function Append(p: Parse, node: MemberNode): Parse
    requires p.Valid()
  {
    var top := |p.levels| - 1;
    p.(levels := p.levels[top := p.levels[top] + [node]])
  }

  // The innermost open structure becomes a member of the level around it.
  function CloseTop(p: Parse): (q: Parse)
    requires p.Valid() && |p.levels| > 1
    ensures q.Valid() && |q.levels| == |p.levels| - 1
  {
    var top := |p.levels| - 1;
    var h := p.pending[top - 1];
    Append(Parse(p.levels[..top], p.pending[..top - 1]), MemberNode(h.name, StructWord, h.comment, p.levels[top]))
  }

  function Step(p: Parse, line: Line): (q: Parse)
    requires p.Valid()
    ensures q.Valid()
  {
    match line
    case Other => p
    case EndStruct => if |p.levels| > 1 then CloseTop(p) else p
    case StructOpen(name, comment) =>
      if name == "" then p else Parse(p.levels + [[]], p.pending + [Header(name, comment)])
    case Declaration(name, declared, comment) =>
      if name == "" then p else Append(p, MemberNode(name, declared, comment, []))
  }

  function Run(p: Parse, lines: seq<Line>): (q: Parse)
    requires p.Valid()
    ensures q.Valid()
    decreases |lines|
  {
    if lines == [] then p else Run(Step(p, lines[0]), lines[1..])
  }

  // Structures still open at the end of the source keep what they collected.
  function CloseAll(p: Parse): seq<MemberNode>
    requires p.Valid()
    decreases |p.levels|
  {
    if |p.levels| == 1 then p.levels[0] else CloseAll(CloseTop(p))
  }

  function Forest(lines: seq<Line>): seq<MemberNode> {
    CloseAll(Run(Start, lines))
  }

  // ---------------------------------------------------------------- the printer

  function FlattenNode(node: MemberNode): seq<Line>
    decreases node
  {
    if node.IsStruct() then
      [StructOpen(node.name, node.comment)] + Flatten(node.children) + [EndStruct]
    else [Declaration(node.name, node.declared, node.comment)]
  }

  function Flatten(nodes: seq<MemberNode>): seq<Line>
    decreases nodes
  {
    if nodes == [] then [] else FlattenNode(nodes[0]) + Flatten(nodes[1..])
  }

  // Members are named, and members with children are structures.
  predicate WellFormed(nodes: seq<MemberNode>)
    decreases nodes
  {
    nodes == [] ||
    (&& nodes[0].name != ""
     && (nodes[0].children != [] ==> nodes[0].declared == StructWord)
     && WellFormed(nodes[0].children)
     && WellFormed(nodes[1..]))
  }

  // ---------------------------------------------------------------- parsing undoes printing

  lemma {:induction false} RunConcat(p: Parse, a: seq<Line>, b: seq<Line>)
    requires p.Valid()
    ensures Run(p, a + b) == Run(Run(p, a), b)
    decreases |a|
  {
    if a == [] {
      assert a + b == b;
    } else {
      assert (a + b)[0] == a[0] && (a + b)[1..] == a[1..] + b;
      RunConcat(Step(p, a[0]), a[1..], b);
    }
  }

  function WithMembers(p: Parse, nodes: seq<MemberNode>): (q: Parse)
    requires p.Valid()
    ensures q.Valid()
  {
    var top := |p.levels| - 1;
    p.(levels := p.levels[top := p.levels[top] + nodes])
  }

  lemma {:induction false} RunFlattenNode(p: Parse, node: MemberNode)
    requires p.Valid() && node.name != "" && WellFormed(node.children)
    requires node.children != [] ==> node.declared == StructWord
    ensures Run(p, FlattenNode(node)) == WithMembers(p, [node])
    decreases node
  {
    if node.IsStruct() {
      var open := [StructOpen(node.name, node.comment)];
      var body := Flatten(node.children);
      var inside := Parse(p.levels + [[]], p.pending + [Header(node.name, node.comment)]);
      RunConcat(p, open + body, [EndStruct]);
      RunConcat(p, open, body);
      assert Run(p, open) == inside;
      RunFlatten(inside, node.children);
      var full := WithMembers(inside, node.children);
      assert [] + node.children == node.children;
      assert full.levels == p.levels + [node.children];
      assert CloseTop(full).levels == WithMembers(p, [node]).levels;
      assert CloseTop(full).pending == p.pending;
      assert Run(full, [EndStruct]) == Step(full, EndStruct);
    } else {
      assert Run(p, FlattenNode(node)) == Step(p, FlattenNode(node)[0]);
    }
  }

  // From any point of a parse, the lines of a declaration add exactly its members to the
  // innermost open level.
  lemma {:induction false} RunFlatten(p: Parse, nodes: seq<MemberNode>)
    requires p.Valid() && WellFormed(nodes)
    ensures Run(p, Flatten(nodes)) == WithMembers(p, nodes)
    decreases nodes
  {
    if nodes == [] {
      var top := p.levels[|p.levels| - 1];
      assert top + [] == top;
      assert WithMembers(p, nodes).levels == p.levels;
    } else {
      RunConcat(p, FlattenNode(nodes[0]), Flatten(nodes[1..]));
      RunFlattenNode(p, nodes[0]);
      RunFlatten(WithMembers(p, [nodes[0]]), nodes[1..]);
      var top := p.levels[|p.levels| - 1];
      assert nodes == [nodes[0]] + nodes[1..];
      assert (top + [nodes[0]]) + nodes[1..] == top + nodes;
      assert WithMembers(WithMembers(p, [nodes[0]]), nodes[1..]).levels == WithMembers(p, nodes).levels;
    }
  }

  lemma {:induction false} ParsingUndoesPrinting(nodes: seq<MemberNode>)
    requires WellFormed(nodes)
    ensures Forest(Flatten(nodes)) == nodes
  {
    RunFlatten(Start, nodes);
    assert [] + nodes == nodes;
    assert WithMembers(Start, nodes).levels == [nodes];
  }

  // ---------------------------------------------------------------- unbalanced END_STRUCTs

  function Ends(n: nat): seq<Line> {
    seq(n, _ => EndStruct)
  }

  lemma {:induction false} EndsCloseNothingNew(p: Parse, n: nat)
    requires p.Valid()
    ensures CloseAll(Run(p, Ends(n))) == CloseAll(p)
    decreases n
  {
    if n > 0 {
      assert Ends(n)[0] == EndStruct && Ends(n)[1..] == Ends(n - 1);
      EndsCloseNothingNew(Step(p, EndStruct), n - 1);
    }
  }

  // For any source, END_STRUCTs missing or surplus at the end change nothing.
  lemma {:induction false} TrailingEndsDoNotMatter(lines: seq<Line>, n: nat)
    ensures Forest(lines + Ends(n)) == Forest(lines)
  {
    RunConcat(Start, lines, Ends(n));
    EndsCloseNothingNew(Run(Start, lines), n);
  }

  // A surplus END_STRUCT anywhere - one met while no structure is open - is ignored.
  lemma {:induction false} SurplusEndIsIgnored(before: seq<Line>, after: seq<Line>)
    requires |Run(Start, before).levels| == 1
    ensures Forest(before + [EndStruct] + after) == Forest(before + after)
  {
    RunConcat(Start, before + [EndStruct], after);
    RunConcat(Start, before, [EndStruct]);
    RunConcat(Start, before, after);
    var p := Run(Start, before);
    assert Run(p, [EndStruct]) == Run(Step(p, EndStruct), []);
  }

  // ---------------------------------------------------------------- lines that say nothing

  // A blank line, a comment, anything that is no declaration, and whatever has no name.
  predicate SaysNothing(line: Line) {
    match line
    case Other => true
    case EndStruct => false
    case StructOpen(name, _) => name == ""
    case Declaration(name, _, _) => name == ""
  }

  // Such a line changes nothing, wherever it stands - inside a structure, too.
  lemma {:induction false} EmptyLinesDoNotMatter(before: seq<Line>, line: Line, after: seq<Line>)
    requires SaysNothing(line)
    ensures Forest(before + [line] + after) == Forest(before + after)
  {
    RunConcat(Start, before + [line], after);
    RunConcat(Start, before, [line]);
    RunConcat(Start, before, after);
    var p := Run(Start, before);
    assert Run(p, [line]) == Run(Step(p, line), []);
  }

  function WithoutEmpty(lines: seq<Line>): seq<Line> {
    if lines == [] then []
    else (if SaysNothing(lines[0]) then [] else [lines[0]]) + WithoutEmpty(lines[1..])
  }

  lemma {:induction false} RunSkipsEmpty(p: Parse, lines: seq<Line>)
    requires p.Valid()
    ensures Run(p, WithoutEmpty(lines)) == Run(p, lines)
    decreases |lines|
  {
    if lines != [] {
      var rest := WithoutEmpty(lines[1..]);
      RunSkipsEmpty(Step(p, lines[0]), lines[1..]);
      if !SaysNothing(lines[0]) {
        assert ([lines[0]] + rest)[0] == lines[0] && ([lines[0]] + rest)[1..] == rest;
      } else {
        assert [] + rest == rest;
      }
    }
  }

  // However a forest's lines are interleaved with lines that say nothing, they parse to it.
  lemma {:induction false} ParsingUndoesPrintingWithGaps(nodes: seq<MemberNode>, lines: seq<Line>)
    requires WellFormed(nodes) && WithoutEmpty(lines) == Flatten(nodes)
    ensures Forest(lines) == nodes
  {
    RunSkipsEmpty(Start, lines);
    ParsingUndoesPrinting(nodes);
  }

  // ---------------------------------------------------------------- every parse is printable

  predicate WellFormedLevels(p: Parse) {
    && (forall i :: 0 <= i < |p.levels| ==> WellFormed(p.levels[i]))
    && (forall i :: 0 <= i < |p.pending| ==> p.pending[i].name != "")
  }

  lemma {:induction false} WellFormedConcat(a: seq<MemberNode>, b: seq<MemberNode>)
    requires WellFormed(a) && WellFormed(b)
    ensures WellFormed(a + b)
    decreases |a|
  {
    if a == [] {
      assert a + b == b;
    } else {
      WellFormedConcat(a[1..], b);
      assert (a + b)[0] == a[0] && (a + b)[1..] == a[1..] + b;
    }
  }

  lemma {:induction false} AppendWellFormed(p: Parse, node: MemberNode)
    requires p.Valid() && WellFormedLevels(p)
    requires node.name != "" && WellFormed(node.children) && (node.children != [] ==> node.declared == StructWord)
    ensures WellFormedLevels(Append(p, node))
  {
    assert [node][1..] == [];
    WellFormedConcat(p.levels[|p.levels| - 1], [node]);
  }

  lemma {:induction false} CloseTopWellFormed(p: Parse)
    requires p.Valid() && WellFormedLevels(p) && |p.levels| > 1
    ensures WellFormedLevels(CloseTop(p))
  {
    var top := |p.levels| - 1;
    var h := p.pending[top - 1];
    AppendWellFormed(Parse(p.levels[..top], p.pending[..top - 1]),
                     MemberNode(h.name, StructWord, h.comment, p.levels[top]));
  }

  lemma {:induction false} StepWellFormed(p: Parse, line: Line)
    requires p.Valid() && WellFormedLevels(p)
    ensures WellFormedLevels(Step(p, line))
  {
    match line
    case Declaration(name, declared, comment) =>
      if name != "" {
        AppendWellFormed(p, MemberNode(name, declared, comment, []));
      }
    case EndStruct =>
      if |p.levels| > 1 {
        CloseTopWellFormed(p);
      }
    case _ =>
  }

  lemma {:induction false} RunWellFormed(p: Parse, lines: seq<Line>)
    requires p.Valid() && WellFormedLevels(p)
    ensures WellFormedLevels(Run(p, lines))
    decreases |lines|
  {
    if lines != [] {
      StepWellFormed(p, lines[0]);
      RunWellFormed(Step(p, lines[0]), lines[1..]);
    }
  }

  lemma {:induction false} CloseAllWellFormed(p: Parse)
    requires p.Valid() && WellFormedLevels(p)
    ensures WellFormed(CloseAll(p))
    decreases |p.levels|
  {
    if |p.levels| > 1 {
      CloseTopWellFormed(p);
      CloseAllWellFormed(CloseTop(p));
    }
  }

  // For any lines at all: what was parsed can be printed, and parses back to itself.
  lemma {:induction false} PrintingWhatWasParsed(lines: seq<Line>)
    ensures WellFormed(Forest(lines)) && Forest(Flatten(Forest(lines))) == Forest(lines)
  {
    RunWellFormed(Start, lines);
    CloseAllWellFormed(Run(Start, lines));
    ParsingUndoesPrinting(Forest(lines));
  }
}
