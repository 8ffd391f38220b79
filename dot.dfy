/** The Graphviz text that `generate_graph` (1.py:30-45) builds from a list of
    coordinates: a node statement per coordinate in input order, then an edge
    statement for every pair of input positions i < j, in (i, j) order. */
module Dot {
  import opened Pom

  const Header := "digraph G {\n"
  const Footer := "}\n"
  const Indent := "    "
  const NoneText := "None"
  const Colon := ":"
  const Quote := "\""
  const LabelAttribute := " [label="
  const NodeEnd := "];\n"
  const Arrow := " -> "
  const EdgeEnd := ";\n"

  /** How a Python f-string renders a part of a coordinate: a string as
      itself, None as `None`. */
  function Show(t: Option<string>): string {
    if t.Some? then t.value else NoneText
  }

  /** The node name `group:artifact:version` (1.py:37, and inline at 1.py:42). */
  function Key(c: Coordinate): string {
    Show(c.groupId) + Colon + Show(c.artifactId) + Colon + Show(c.version)
  }

  function Quoted(s: string): string {
    Quote + s + Quote
  }

  /** A line of the graph body: a node for a coordinate, or an edge from one
      coordinate to another. */
  datatype Statement = NodeStatement(node: Coordinate) | EdgeStatement(source: Coordinate, target: Coordinate)

  /** The text of a statement, newline included: `    "key" [label="artifact"];`
      (1.py:38) or `    "key" -> "key'";` (1.py:42). */
  function Render(s: Statement): string {
    match s
    case NodeStatement(c) => Indent + Quoted(Key(c)) + LabelAttribute + Quoted(Show(c.artifactId)) + NodeEnd
    case EdgeStatement(a, b) => Indent + Quoted(Key(a)) + Arrow + Quoted(Key(b)) + EdgeEnd
  }

  /** The text of a sequence of statements, one after another. */
  function Text(ss: seq<Statement>): string
    decreases |ss|
  {
    if ss == [] then "" else Text(ss[..|ss| - 1]) + Render(ss[|ss| - 1])
  }

  /** A pair (i, j) of input positions: an edge from the i-th to the j-th coordinate. */
  type Pair = (nat, nat)

  /** The pairs the inner loop visits for a fixed i before j reaches `bound`:
      (i, i + 1), ..., (i, bound - 1). */
  function Row(i: nat, bound: nat): (r: seq<Pair>)
    ensures |r| == if bound <= i + 1 then 0 else bound - i - 1
    ensures forall k :: 0 <= k < |r| ==> r[k] == (i, i + 1 + k)
  {
    seq(if bound <= i + 1 then 0 else bound - i - 1, k => (i, i + 1 + k))
  }

  /** The pairs the two loops visit before the outer index reaches i. */
  function Rows(i: nat, n: nat): (r: seq<Pair>)
    ensures forall k :: 0 <= k < |r| ==> r[k].0 < i && r[k].0 < r[k].1 < n
  {
    if i == 0 then [] else Rows(i - 1, n) + Row(i - 1, n)
  }

  /** All pairs of positions among n coordinates, in the order the edges are emitted. */
  function Pairs(n: nat): (r: seq<Pair>)
    ensures forall k :: 0 <= k < |r| ==> r[k].0 < r[k].1 < n
  {
    Rows(n, n)
  }

  /** One node statement per coordinate, in input order. */
  function NodeStatements(deps: seq<Coordinate>): (r: seq<Statement>)
    ensures |r| == |deps|
    ensures forall k :: 0 <= k < |deps| ==> r[k] == NodeStatement(deps[k])
    decreases |deps|
  {
    if deps == [] then [] else NodeStatements(deps[..|deps| - 1]) + [NodeStatement(deps[|deps| - 1])]
  }

  /** An edge statement from `source` to each of `targets`, in order. */
  function Edges(source: Coordinate, targets: seq<Coordinate>): (r: seq<Statement>)
    ensures |r| == |targets|
    ensures forall k :: 0 <= k < |targets| ==> r[k] == EdgeStatement(source, targets[k])
    decreases |targets|
  {
    if targets == [] then [] else Edges(source, targets[..|targets| - 1]) + [EdgeStatement(source, targets[|targets| - 1])]
  }

  /** The edge statements the inner loop emits for a fixed i: from the i-th
      coordinate to each of those after it. */
  function RowStatements(deps: seq<Coordinate>, i: nat): (r: seq<Statement>)
    requires i < |deps|
    ensures |r| == |deps| - i - 1
    ensures forall k :: 0 <= k < |r| ==> r[k] == EdgeStatement(deps[i], deps[i + 1 + k])
  {
    Edges(deps[i], deps[i + 1..])
  }

  /** The edge statements the two loops emit before the outer index reaches i. */
  function EdgeStatements(deps: seq<Coordinate>, i: nat): (r: seq<Statement>)
    requires i <= |deps|
    ensures |r| == |Rows(i, |deps|)|
  {
    if i == 0 then [] else EdgeStatements(deps, i - 1) + RowStatements(deps, i - 1)
  }

  /** The edge statement of each pair of positions, in the order of the pairs. */
  function EdgesOf(deps: seq<Coordinate>, ps: seq<Pair>): (r: seq<Statement>)
    requires forall k :: 0 <= k < |ps| ==> ps[k].0 < |deps| && ps[k].1 < |deps|
    ensures |r| == |ps|
    ensures forall k :: 0 <= k < |ps| ==> r[k] == EdgeStatement(deps[ps[k].0], deps[ps[k].1])
  {
    seq(|ps|, k requires 0 <= k < |ps| => EdgeStatement(deps[ps[k].0], deps[ps[k].1]))
  }

  lemma EdgesOfAppend(deps: seq<Coordinate>, a: seq<Pair>, b: seq<Pair>)
    requires forall k :: 0 <= k < |a| ==> a[k].0 < |deps| && a[k].1 < |deps|
    requires forall k :: 0 <= k < |b| ==> b[k].0 < |deps| && b[k].1 < |deps|
    ensures EdgesOf(deps, a + b) == EdgesOf(deps, a) + EdgesOf(deps, b)
  {
    var ab, front, back := a + b, EdgesOf(deps, a), EdgesOf(deps, b);
    var whole := EdgesOf(deps, ab);
    forall k | 0 <= k < |whole|
      ensures whole[k] == (front + back)[k]
    {
      if k < |a| {
        assert ab[k] == a[k];
      } else {
        assert ab[k] == b[k - |a|];
      }
    }
  }

  /** Sequence identity, stated to place the fact at these terms for the solver. */
  lemma AppendBoth(a: seq<Statement>, b: seq<Statement>, c: seq<Statement>, d: seq<Statement>)
    requires a == c && b == d
    ensures a + b == c + d
  {
  }

  /** The edge statements of row i are those of its pairs. */
  lemma RowEdges(deps: seq<Coordinate>, i: nat)
    requires i < |deps|
    ensures RowStatements(deps, i) == EdgesOf(deps, Row(i, |deps|))
  {
  }

  /** The edge statements the loops emit up to row i are those of the pairs
      they visit, in the same order. */
  lemma {:induction false} EdgeStatementsArePairs(deps: seq<Coordinate>, i: nat)
    requires i <= |deps|
    ensures EdgeStatements(deps, i) == EdgesOf(deps, Rows(i, |deps|))
  {
    if i > 0 {
      var n := |deps|;
      EdgeStatementsArePairs(deps, i - 1);
      RowEdges(deps, i - 1);
      var front, row := Rows(i - 1, n), Row(i - 1, n);
      EdgesOfAppend(deps, front, row);
      AppendBoth(EdgeStatements(deps, i - 1), RowStatements(deps, i - 1), EdgesOf(deps, front), EdgesOf(deps, row));
    }
  }

  /** The statements of the graph: all node statements, then all edge statements. */
  function Statements(deps: seq<Coordinate>): seq<Statement> {
    NodeStatements(deps) + EdgeStatements(deps, |deps|)
  }

  /** What `generate_graph` returns. */
  function Graph(deps: seq<Coordinate>): string {
    Header + Text(Statements(deps)) + Footer
  }

  /** Sequence identity, stated to place the fact at these terms for the solver. */
  lemma Associative(a: string, b: string, c: string)
    ensures a + (b + c) == a + b + c
  {
  }

  /** Sequence identity, stated to place the fact at these terms for the solver. */
  lemma AppendNothing(a: string)
    ensures a + "" == a
  {
  }

  /** The text of two runs of statements is the text of the first, then the
      text of the second. */
  lemma {:induction false} TextAppend(a: seq<Statement>, b: seq<Statement>)
    ensures Text(a + b) == Text(a) + Text(b)
    decreases |b|
  {
    if b == [] {
      assert a + b == a;
      AppendNothing(Text(a));
    } else {
      var init, last := b[..|b| - 1], b[|b| - 1];
      TextAppend(a, init);
      assert (a + b)[..|a + b| - 1] == a + init;
      Associative(Text(a), Text(init), Render(last));
    }
  }

  /** The text is the header, the node statements, the edge statements and the
      footer, in that order. */
  lemma GraphLayout(deps: seq<Coordinate>)
    ensures Graph(deps) ==
      Header + Text(NodeStatements(deps)) + Text(EdgeStatements(deps, |deps|)) + Footer
  {
    var nodes, edges := NodeStatements(deps), EdgeStatements(deps, |deps|);
    TextAppend(nodes, edges);
    Associative(Header, Text(nodes), Text(edges));
  }

  /** The text always opens with `digraph G {` and closes with `}`. */
  lemma GraphFrame(deps: seq<Coordinate>)
    ensures |Graph(deps)| >= |Header| + |Footer|
    ensures Graph(deps)[..|Header|] == Header
    ensures Graph(deps)[|Graph(deps)| - |Footer|..] == Footer
  {
  }

  /** No dependencies: the text is exactly the header and the footer. */
  lemma EmptyGraph()
    ensures Graph([]) == "digraph G {\n}\n"
  {
    assert Statements([]) == [];
  }

  /** i rows of pairs hold i * (2n - i - 1) / 2 pairs. */
  lemma {:induction false} RowsCount(i: nat, n: nat)
    requires i <= n
    ensures 2 * |Rows(i, n)| == i * (2 * n - i - 1)
  {
    if i > 0 {
      RowsCount(i - 1, n);
      assert |Row(i - 1, n)| == n - i;
      assert (i - 1) * (2 * n - i) + 2 * (n - i) == i * (2 * n - i - 1);
    }
  }

  /** There are n * (n - 1) / 2 pairs among n positions. */
  lemma PairsCount(n: nat)
    ensures 2 * |Pairs(n)| == n * (n - 1)
  {
    RowsCount(n, n);
  }

  /** Every pair i < j < n with i below the row bound is among the rows. */
  lemma {:induction false} RowsComplete(i: nat, n: nat, p: Pair)
    requires p.0 < i && p.0 < p.1 < n
    ensures p in Rows(i, n)
  {
    if p.0 == i - 1 {
      var row := Row(i - 1, n);
      assert row[p.1 - i] == p;
      assert Rows(i, n)[|Rows(i - 1, n)| + p.1 - i] == p;
    } else {
      RowsComplete(i - 1, n, p);
    }
  }

  /** The pairs are exactly those (i, j) with i < j < n: no self-loop, no
      backward edge, every forward edge. */
  lemma PairsExact(n: nat, p: Pair)
    ensures p in Pairs(n) <==> p.0 < p.1 < n
  {
    if p.0 < p.1 < n {
      RowsComplete(n, n, p);
    }
  }

  /** (i, j) comes strictly before (i', j') in lexicographic order. */
  predicate LexLess(p: Pair, q: Pair) {
    p.0 < q.0 || (p.0 == q.0 && p.1 < q.1)
  }

  lemma {:induction false} RowsSorted(i: nat, n: nat)
    ensures forall a, b :: 0 <= a < b < |Rows(i, n)| ==> LexLess(Rows(i, n)[a], Rows(i, n)[b])
  {
    if i > 0 {
      RowsSorted(i - 1, n);
      var front, row := Rows(i - 1, n), Row(i - 1, n);
      assert Rows(i, n) == front + row;
      forall a, b | 0 <= a < b < |front + row|
        ensures LexLess((front + row)[a], (front + row)[b])
      {
        if b < |front| {
          assert LexLess(front[a], front[b]);
        } else if a >= |front| {
          assert row[a - |front|] == (i - 1, i + a - |front|);
        } else {
          assert front[a].0 < i - 1;
        }
      }
    }
  }

  /** Edges come in strictly increasing lexicographic (i, j) order, so none is
      emitted twice. */
  lemma PairsSorted(n: nat)
    ensures forall a, b :: 0 <= a < b < |Pairs(n)| ==> LexLess(Pairs(n)[a], Pairs(n)[b])
  {
    RowsSorted(n, n);
  }

  /** The shape of the statements: exactly n node statements, one per coordinate
      in input order, followed by exactly n * (n - 1) / 2 edge statements, the
      k-th of them joining the coordinates of the k-th pair, from the earlier
      position to the later one. Equal coordinates are not merged. */
  lemma StatementsShape(deps: seq<Coordinate>)
    ensures var n, ss := |deps|, Statements(deps);
      2 * (|ss| - n) == n * (n - 1) &&
      (forall k :: 0 <= k < |ss| ==> (ss[k].NodeStatement? <==> k < n)) &&
      (forall k :: 0 <= k < n ==> ss[k] == NodeStatement(deps[k])) &&
      forall k :: n <= k < |ss| ==>
        var p := Pairs(n)[k - n];
        p.0 < p.1 && ss[k] == EdgeStatement(deps[p.0], deps[p.1])
  {
    var n, ss := |deps|, Statements(deps);
    PairsCount(n);
    forall k | n <= k < |ss|
      ensures var p := Pairs(n)[k - n]; p.0 < p.1 && ss[k] == EdgeStatement(deps[p.0], deps[p.1])
    {
      EdgeStatementsArePairs(deps, n);
    }
  }

  /** Two coordinates, equal or not, give two node statements and one edge
      from the first to the second: equal coordinates are not merged, and then
      the edge joins a key to itself. */
  lemma TwoStatements(a: Coordinate, b: Coordinate)
    ensures Statements([a, b]) == [NodeStatement(a), NodeStatement(b), EdgeStatement(a, b)]
  {
    var ds := [a, b];
    assert ds[..1] == [a];
    assert NodeStatements(ds) == [NodeStatement(a), NodeStatement(b)];
    assert ds[1..] == [b] && [b][..0] == [];
    assert RowStatements(ds, 0) == [EdgeStatement(a, b)];
    assert EdgeStatements(ds, 1) == [EdgeStatement(a, b)];
  }

  lemma TextOne(x: Statement)
    ensures Text([x]) == Render(x)
  {
    assert [x][..0] == [];
    assert "" + Render(x) == Render(x);
  }

  lemma TextTwo(x: Statement, y: Statement)
    ensures Text([x, y]) == Render(x) + Render(y)
  {
    assert [x, y][..1] == [x];
    TextOne(x);
  }

  lemma TextThree(x: Statement, y: Statement, z: Statement)
    ensures Text([x, y, z]) == Render(x) + Render(y) + Render(z)
  {
    assert [x, y, z][..2] == [x, y];
    TextTwo(x, y);
  }

  /** The text of two coordinates: header, their two node lines, the edge line
      from the first to the second, footer. */
  lemma TwoCoordinates(a: Coordinate, b: Coordinate)
    ensures Graph([a, b]) ==
      Header + (Render(NodeStatement(a)) + Render(NodeStatement(b)) + Render(EdgeStatement(a, b))) + Footer
  {
    TwoStatements(a, b);
    TextThree(NodeStatement(a), NodeStatement(b), EdgeStatement(a, b));
  }

  /** Sequence identity, stated to place the fact at these terms for the solver. */
  lemma SliceKeep(x: string, y: string, i: nat, j: nat)
    requires i <= j <= |x|
    ensures (x + y)[i..j] == x[i..j]
  {
  }

  /** Sequence identity, stated to place the fact at these terms for the solver. */
  lemma Middle(x: string, y: string)
    ensures (x + y)[|x|..|x| + |y|] == y
  {
  }

  /** An edge statement names its endpoints by the same quoted key that the
      node statements of those coordinates declare. */
  lemma EdgeKeysAreNodeKeys(source: Coordinate, target: Coordinate)
    ensures var opening := Indent + Quoted(Key(source));
      Render(NodeStatement(source))[..|opening|] == opening &&
      Render(EdgeStatement(source, target))[..|opening|] == opening
    ensures var quoted, node, edge := Quoted(Key(target)), Render(NodeStatement(target)), Render(EdgeStatement(source, target));
      node[|Indent|..|Indent| + |quoted|] == quoted &&
      edge[|edge| - |EdgeEnd| - |quoted|..|edge| - |EdgeEnd|] == quoted
  {
    var opening := Indent + Quoted(Key(source));
    var sourceLabel := Quoted(Show(source.artifactId));
    SliceKeep(opening + LabelAttribute + sourceLabel, NodeEnd, 0, |opening|);
    SliceKeep(opening + LabelAttribute, sourceLabel, 0, |opening|);
    SliceKeep(opening, LabelAttribute, 0, |opening|);
    var quoted := Quoted(Key(target));
    SliceKeep(opening + Arrow + quoted, EdgeEnd, 0, |opening|);
    SliceKeep(opening + Arrow, quoted, 0, |opening|);
    SliceKeep(opening, Arrow, 0, |opening|);
    var head := Indent + quoted;
    var targetLabel := Quoted(Show(target.artifactId));
    SliceKeep(head + LabelAttribute + targetLabel, NodeEnd, |Indent|, |head|);
    SliceKeep(head + LabelAttribute, targetLabel, |Indent|, |head|);
    SliceKeep(head, LabelAttribute, |Indent|, |head|);
    Middle(Indent, quoted);
    var front := opening + Arrow;
    SliceKeep(front + quoted, EdgeEnd, |front|, |front| + |quoted|);
    Middle(front, quoted);
  }

  /** One turn of the first loop: appending the k-th node statement. */
  lemma NodeStep(deps: seq<Coordinate>, k: nat, text: string, graph: string)
    requires k < |deps|
    requires graph == text + Text(NodeStatements(deps[..k]))
    ensures graph + Render(NodeStatement(deps[k])) == text + Text(NodeStatements(deps[..k + 1]))
  {
    assert deps[..k + 1][..k] == deps[..k];
    Associative(text, Text(NodeStatements(deps[..k])), Render(NodeStatement(deps[k])));
  }

  /** One turn of the inner loop: appending the edge statement to the k-th
      later coordinate. */
  lemma EdgeStep(source: Coordinate, targets: seq<Coordinate>, k: nat, text: string, graph: string)
    requires k < |targets|
    requires graph == text + Text(Edges(source, targets[..k]))
    ensures graph + Render(EdgeStatement(source, targets[k])) == text + Text(Edges(source, targets[..k + 1]))
  {
    assert targets[..k + 1][..k] == targets[..k];
    Associative(text, Text(Edges(source, targets[..k])), Render(EdgeStatement(source, targets[k])));
  }

  /** One turn of the outer loop: appending the edge statements of row i. */
  lemma EdgesStep(deps: seq<Coordinate>, i: nat, text: string, before: string, graph: string)
    requires i < |deps|
    requires before == text + Text(EdgeStatements(deps, i))
    requires graph == before + Text(RowStatements(deps, i))
    ensures graph == text + Text(EdgeStatements(deps, i + 1))
  {
    var done, row := EdgeStatements(deps, i), RowStatements(deps, i);
    TextAppend(done, row);
    Associative(text, Text(done), Text(row));
  }

  /** The first loop of `generate_graph` (1.py:36-38): a node statement per
      coordinate, appended to `text`. */
  method AppendNodeStatements(dependencies: seq<Coordinate>, text: string) returns (graph: string)
    ensures graph == text + Text(NodeStatements(dependencies))
  {
    graph := text;
    assert dependencies[..0] == [];
    AppendNothing(text);
    var k := 0;
    while k < |dependencies|
      invariant k <= |dependencies|
      invariant graph == text + Text(NodeStatements(dependencies[..k]))
    {
      NodeStep(dependencies, k, text, graph);
      graph := graph + Render(NodeStatement(dependencies[k]));
      k := k + 1;
    }
    assert dependencies[..k] == dependencies;
  }

  /** The inner loop of `generate_graph` (1.py:41-42) for a fixed i: an edge
      statement from the i-th coordinate to each later one, appended to `text`.
      The loop walks the later coordinates; its k-th turn is the turn j = i + 1 + k
      of the source. */
  method AppendRow(dependencies: seq<Coordinate>, i: nat, text: string) returns (graph: string)
    requires i < |dependencies|
    ensures graph == text + Text(RowStatements(dependencies, i))
  {
    var source, targets := dependencies[i], dependencies[i + 1..];
    graph := text;
    assert targets[..0] == [];
    AppendNothing(text);
    var k := 0;
    while k < |targets|
      invariant k <= |targets|
      invariant graph == text + Text(Edges(source, targets[..k]))
    {
      EdgeStep(source, targets, k, text, graph);
      graph := graph + Render(EdgeStatement(source, targets[k]));
      k := k + 1;
    }
    assert targets[..k] == targets;
  }

  /** The nested loops of `generate_graph` (1.py:40-42): an edge statement for
      every pair of positions i < j, in (i, j) order, appended to `text`. */
  method AppendEdgeStatements(dependencies: seq<Coordinate>, text: string) returns (graph: string)
    ensures graph == text + Text(EdgeStatements(dependencies, |dependencies|))
  {
    graph := text;
    AppendNothing(text);
    var i := 0;
    while i < |dependencies|
      invariant i <= |dependencies|
      invariant graph == text + Text(EdgeStatements(dependencies, i))
    {
      var before := graph;
      graph := AppendRow(dependencies, i, graph);
      EdgesStep(dependencies, i, text, before, graph);
      i := i + 1;
    }
    assert i == |dependencies|;
  }

  /** `generate_graph` (1.py:30-45): the header, the statements the two loops
      append, and the closing brace. */
  method GenerateGraph(dependencies: seq<Coordinate>) returns (graph: string)
    ensures graph == Graph(dependencies)
  {
    graph := Header;
    graph := AppendNodeStatements(dependencies, graph);
    graph := AppendEdgeStatements(dependencies, graph);
    graph := graph + Footer;
    GraphLayout(dependencies);
  }
}
