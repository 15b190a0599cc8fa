// The stack loop of the declaration parser, with the sharing it relies on: the list on top of the
// stack is the very list of children of a node already stored further down. A list object is an
// index into `arena`, its contents are arena[index].
module DeclLoop {
  import opened Wrappers
  import opened S7Types
  import opened DbLayout
  import opened DeclParser

  // A stored node; a structure refers to its list of children.
  datatype Cell = Cell(name: string, declared: Declared, comment: string, children: Option<nat>)

  type Arena = seq<seq<Cell>>

  // References in the first n cells of list `id` lead to later lists below `high`.
  predicate CellsWithin(arena: Arena, id: nat, n: nat, high: nat)
    requires id < |arena| && n <= |arena[id]|
  {
    forall k :: 0 <= k < n && arena[id][k].children.Some? ==> id < arena[id][k].children.value < high
  }

  // Lists low..high refer only to later lists below `high`.
  predicate Closed(arena: Arena, low: nat, high: nat) {
    && high <= |arena|
    && forall id :: low <= id < high ==> CellsWithin(arena, id, |arena[id]|, high)
  }

  predicate Acyclic(arena: Arena) { Closed(arena, 0, |arena|) }

  // The declaration stored in the first n cells of a list.
  function Items(arena: Arena, id: nat, n: nat): seq<MemberNode>
    requires Acyclic(arena) && id < |arena| && n <= |arena[id]|
    decreases |arena| - id, n
  {
    if n == 0 then []
    else
      var c := arena[id][n - 1];
      assert CellsWithin(arena, id, |arena[id]|, |arena|);
      Items(arena, id, n - 1)
      + [MemberNode(c.name, c.declared, c.comment,
                    if c.children.None? then [] else Items(arena, c.children.value, |arena[c.children.value]|))]
  }

  function Contents(arena: Arena, id: nat): seq<MemberNode>
    requires Acyclic(arena) && id < |arena|
  {
    Items(arena, id, |arena[id]|)
  }

  // Changing lists outside the ones a subtree reaches leaves the subtree as it was.
  lemma {:induction false} ItemsUnchanged(a: Arena, b: Arena, id: nat, n: nat, high: nat)
    requires Acyclic(a) && Acyclic(b) && id < high <= |a| && high <= |b|
    requires n <= |a[id]| && n <= |b[id]| && a[id][..n] == b[id][..n]
    requires CellsWithin(a, id, n, high) && Closed(a, id + 1, high)
    requires forall x :: id < x < high ==> a[x] == b[x]
    ensures Items(a, id, n) == Items(b, id, n)
    decreases high - id, n
  {
    if n > 0 {
      var c := a[id][n - 1];
      assert c == a[id][..n][n - 1] == b[id][n - 1];
      assert a[id][..n - 1] == a[id][..n][..n - 1] == b[id][..n - 1];
      ItemsUnchanged(a, b, id, n - 1, high);
      if c.children.Some? {
        var kid := c.children.value;
        assert CellsWithin(a, kid, |a[kid]|, high);
        ItemsUnchanged(a, b, kid, |a[kid]|, high);
      }
    }
  }

  // Level i of the stack holds what the parse collected there, and then the open structure.
  predicate OpenLevel(arena: Arena, stack: seq<nat>, p: Parse, i: nat)
    requires Acyclic(arena) && p.Valid() && |stack| == |p.levels| && i < |p.pending|
  {
    var id, next := stack[i], stack[i + 1];
    && id < next < |arena| && arena[id] != []
    && var n := |arena[id]| - 1;
       && arena[id][n] == Cell(p.pending[i].name, StructWord, p.pending[i].comment, Some(next))
       && CellsWithin(arena, id, n, next)
       && Closed(arena, id + 1, next)
       && Items(arena, id, n) == p.levels[i]
  }

  predicate Represents(arena: Arena, stack: seq<nat>, p: Parse) {
    && Acyclic(arena) && p.Valid() && |stack| == |p.levels|
    && stack[0] == 0
    && (forall i :: 0 <= i < |p.pending| ==> OpenLevel(arena, stack, p, i))
    && var top := stack[|stack| - 1];
       && top < |arena|
       && Closed(arena, top, |arena|)
       && Contents(arena, top) == p.levels[|p.levels| - 1]
  }

  lemma {:induction false} StackAscends(arena: Arena, stack: seq<nat>, p: Parse, i: nat, j: nat)
    requires Represents(arena, stack, p) && i < j < |stack|
    ensures stack[i] < stack[i + 1] <= stack[j]
    decreases j - i
  {
    assert OpenLevel(arena, stack, p, i);
    if i + 1 < j {
      StackAscends(arena, stack, p, i + 1, j);
    }
  }

  // What an append to the top list, and a new list after it, leave of the levels below.
  lemma {:induction false} LowerLevelsUnchanged(a: Arena, b: Arena, stack: seq<nat>, p: Parse, q: Parse, i: nat)
    requires Represents(a, stack, p) && Acyclic(b) && q.Valid() && |q.levels| == |stack|
    requires i < |p.pending| && p.pending == q.pending && p.levels[i] == q.levels[i]
    requires |a| <= |b| && forall x :: 0 <= x < |a| && x != stack[|stack| - 1] ==> a[x] == b[x]
    ensures OpenLevel(b, stack, q, i)
  {
    assert OpenLevel(a, stack, p, i);
    StackAscends(a, stack, p, i, |stack| - 1);
    var id, next := stack[i], stack[i + 1];
    ItemsUnchanged(a, b, id, |a[id]| - 1, next);
    forall x | id + 1 <= x < next
      ensures CellsWithin(b, x, |b[x]|, next)
    {
      assert CellsWithin(a, x, |a[x]|, next);
    }
  }

  lemma {:induction false} AppendKeepsAcyclic(arena: Arena, id: nat, cell: Cell)
    requires Acyclic(arena) && id < |arena|
    requires cell.children.Some? ==> id < cell.children.value < |arena|
    ensures Acyclic(arena[id := arena[id] + [cell]])
    ensures forall low :: Closed(arena, low, |arena|) ==> Closed(arena[id := arena[id] + [cell]], low, |arena|)
  {
    var b := arena[id := arena[id] + [cell]];
    forall x | 0 <= x < |b|
      ensures CellsWithin(b, x, |b[x]|, |b|)
    {
      assert CellsWithin(arena, x, |arena[x]|, |arena|);
    }
  }

  lemma {:induction false} AppendLeaf(arena: Arena, stack: seq<nat>, p: Parse, name: string, declared: Declared,
                                      comment: string)
    requires Represents(arena, stack, p)
    ensures var top := stack[|stack| - 1];
            Represents(arena[top := arena[top] + [Cell(name, declared, comment, None)]], stack,
                       Append(p, MemberNode(name, declared, comment, [])))
  {
    var top := stack[|stack| - 1];
    var cell := Cell(name, declared, comment, None);
    var b := arena[top := arena[top] + [cell]];
    var q := Append(p, MemberNode(name, declared, comment, []));
    AppendKeepsAcyclic(arena, top, cell);
    forall i | 0 <= i < |q.pending|
      ensures OpenLevel(b, stack, q, i)
    {
      LowerLevelsUnchanged(arena, b, stack, p, q, i);
    }
    assert CellsWithin(arena, top, |arena[top]|, |arena|);
    ItemsUnchanged(arena, b, top, |arena[top]|, |arena|);
  }

  function WithNewStruct(arena: Arena, top: nat, name: string, comment: string): (b: Arena)
    requires top < |arena|
    ensures |b| == |arena| + 1
    ensures forall x :: 0 <= x < |arena| && x != top ==> b[x] == arena[x]
    ensures b[top] == arena[top] + [Cell(name, StructWord, comment, Some(|arena|))] && b[|arena|] == []
  {
    arena[top := arena[top] + [Cell(name, StructWord, comment, Some(|arena|))]] + [[]]
  }

  lemma {:induction false} OpenKeepsAcyclic(arena: Arena, top: nat, name: string, comment: string)
    requires Acyclic(arena) && top < |arena| && Closed(arena, top, |arena|)
    ensures Acyclic(WithNewStruct(arena, top, name, comment))
    ensures Closed(WithNewStruct(arena, top, name, comment), top + 1, |arena|)
  {
    var b := WithNewStruct(arena, top, name, comment);
    forall x | 0 <= x < |arena|
      ensures CellsWithin(b, x, |b[x]|, |b|)
      ensures x > top ==> CellsWithin(b, x, |b[x]|, |arena|)
    {
      assert CellsWithin(arena, x, |arena[x]|, |arena|);
    }
  }

  lemma {:induction false} OpenStruct(arena: Arena, stack: seq<nat>, p: Parse, name: string, comment: string)
    requires Represents(arena, stack, p)
    ensures Represents(WithNewStruct(arena, stack[|stack| - 1], name, comment), stack + [|arena|],
                       Parse(p.levels + [[]], p.pending + [Header(name, comment)]))
  {
    var top := stack[|stack| - 1];
    var b := WithNewStruct(arena, top, name, comment);
    var q := Parse(p.levels + [[]], p.pending + [Header(name, comment)]);
    var stack2 := stack + [|arena|];
    OpenKeepsAcyclic(arena, top, name, comment);
    forall i | 0 <= i < |p.pending|
      ensures OpenLevel(b, stack2, q, i)
    {
      LowerLevelsUnchanged(arena, b, stack, p, p, i);
      assert OpenLevel(b, stack, p, i);
    }
    assert OpenLevel(b, stack2, q, |p.pending|) by {
      var n := |arena[top]|;
      assert CellsWithin(arena, top, n, |arena|);
      ItemsUnchanged(arena, b, top, n, |arena|);
      assert b[top][..n] == arena[top];
      assert CellsWithin(b, top, n, |arena|);
    }
  }

  lemma {:induction false} PopStruct(arena: Arena, stack: seq<nat>, p: Parse)
    requires Represents(arena, stack, p) && |stack| > 1
    ensures Represents(arena, stack[..|stack| - 1], CloseTop(p))
  {
    var last := |stack| - 1;
    var q, stack2 := CloseTop(p), stack[..last];
    assert OpenLevel(arena, stack, p, last - 1);
    forall i | 0 <= i < |q.pending|
      ensures OpenLevel(arena, stack2, q, i)
    {
      assert OpenLevel(arena, stack, p, i);
    }
    var id := stack[last - 1];
    forall x | id <= x < |arena|
      ensures CellsWithin(arena, x, |arena[x]|, |arena|)
    {
    }
  }

  lemma {:induction false} RootHoldsTheForest(arena: Arena, stack: seq<nat>, p: Parse)
    requires Represents(arena, stack, p)
    ensures Contents(arena, 0) == CloseAll(p)
    decreases |stack|
  {
    if |stack| > 1 {
      PopStruct(arena, stack, p);
      RootHoldsTheForest(arena, stack[..|stack| - 1], CloseTop(p));
    }
  }

  // The loop builds exactly the forest of its lines, and no pop meets an empty stack: there is
  // always one open structure fewer than there are lists on the stack.
  method ParseDeclarations(lines: seq<Line>) returns (arena: Arena)
    ensures Acyclic(arena) && |arena| > 0
    ensures Contents(arena, 0) == Forest(lines)
  {
    arena := [[]];
    var stack: seq<nat> := [0];
    var pending: seq<Header> := [];
    ghost var p := Start;
    assert lines[0..] == lines;
    for i := 0 to |lines|
      invariant Represents(arena, stack, p) && pending == p.pending
      invariant |pending| + 1 == |stack|
      invariant Run(Start, lines) == Run(p, lines[i..])
    {
      assert lines[i..][0] == lines[i] && lines[i..][1..] == lines[i + 1..];
      var top := stack[|stack| - 1];
      ghost var q := Step(p, lines[i]);
      match lines[i] {
        case Other =>
        case EndStruct =>
          if |stack| > 1 {
            PopStruct(arena, stack, p);
            stack := stack[..|stack| - 1];
            pending := pending[..|pending| - 1];
          }
        case StructOpen(name, comment) =>
          if name != "" {
            OpenStruct(arena, stack, p, name, comment);
            var newList: nat := |arena|;
            arena := WithNewStruct(arena, top, name, comment);
            stack := stack + [newList];
            pending := pending + [Header(name, comment)];
          }
        case Declaration(name, declared, comment) =>
          if name != "" {
            AppendLeaf(arena, stack, p, name, declared, comment);
            arena := arena[top := arena[top] + [Cell(name, declared, comment, None)]];
          }
      }
      p := q;
    }
    RootHoldsTheForest(arena, stack, p);
  }
}
