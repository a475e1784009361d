/** What the graph compiler guarantees: edge lists only grow, the node and
    edge keys it adds are exactly those of the constructs it visits, it
    fails exactly when a visited identifier is unbound, and over a tree with
    distinct numeric ids it never overwrites a node and wires every input it
    creates exactly once. */
module ProcessTreeProperties {
  import opened Wrappers
  import opened PortIds
  import opened SyntaxTree
  import opened ProcessTree

  function Elems<T>(s: seq<T>): set<T> {
    set x | x in s
  }

  lemma ElemsConcat<T>(a: seq<T>, b: seq<T>)
    ensures Elems(a + b) == Elems(a) + Elems(b)
  {
    assert forall x :: x in a + b <==> x in a || x in b;
  }

  /** Every list of `a` survives in `b` as a prefix of the list there. */
  ghost predicate Extends(a: Edges, b: Edges) {
    forall k :: k in a ==> k in b && a[k] <= b[k]
  }

  lemma ExtendsTrans(a: Edges, b: Edges, c: Edges)
    requires Extends(a, b) && Extends(b, c)
    ensures Extends(a, c)
  {
    forall k | k in a ensures k in c && a[k] <= c[k] {
      assert a[k] <= b[k] <= c[k];
      assert forall i :: 0 <= i < |a[k]| ==> a[k][i] == b[k][i] == c[k][i];
    }
  }

  /** The node ids a construct emits, in emission order. */
  function Emitted(t: Tree, isRoot: bool): seq<string>
    decreases t
  {
    match t
    case SourceFile(_, _, sts) => EmittedAll(sts)
    case Identifier(_, _, _) => []
    case FunctionDeclaration(_, _, _, _, body) =>
      if isRoot then [NodeId(t)] + EmittedAll(body) else [NodeId(t)]
    case ReturnStatement(_, _, e) => [NodeId(t)] + (if e.Some? then Emitted(e.value, false) else [])
    case BinaryExpression(_, _, l, _, r) => [NodeId(t)] + Emitted(l, false) + Emitted(r, false)
    case Other(_, _, _, _) => []
  }

  function EmittedAll(ts: seq<Tree>): seq<string>
    decreases ts
  {
    if |ts| == 0 then [] else Emitted(ts[0], false) + EmittedAll(ts[1..])
  }

  /** The consumer port ids a construct wires an edge into, in the order the
      edges are created. */
  function Wired(t: Tree, isRoot: bool): seq<string>
    decreases t
  {
    match t
    case SourceFile(_, _, sts) => WiredAll(sts)
    case Identifier(_, _, _) => []
    case FunctionDeclaration(_, _, _, _, body) => if isRoot then WiredAll(body) else []
    case ReturnStatement(id, _, e) =>
      if e.Some? then Wired(e.value, false) + [CreateId("return", id)] else []
    case BinaryExpression(id, _, l, _, r) =>
      Wired(l, false) + [CreateId("left", id)] + Wired(r, false) + [CreateId("right", id)]
    case Other(_, _, _, _) => []
  }

  function WiredAll(ts: seq<Tree>): seq<string>
    decreases ts
  {
    if |ts| == 0 then [] else Wired(ts[0], false) + WiredAll(ts[1..])
  }

  /** A name is bound when some scope entry carries it. */
  predicate Bound(scope: seq<Port>, text: string) {
    exists i :: 0 <= i < |scope| && scope[i].text == text
  }

  /** Every identifier the compiler visits is bound in the scope it is
      visited with, and every nested function it visits has a name; a root
      function's body sees its parameters pushed. */
  predicate Resolves(t: Tree, isRoot: bool, scope: seq<Port>)
    decreases t
  {
    match t
    case SourceFile(_, _, sts) => ResolvesAll(sts, scope)
    case Identifier(_, _, text) => Bound(scope, text)
    case FunctionDeclaration(_, _, name, ps, body) =>
      if isRoot then ResolvesAll(body, scope + ParamPorts(ps)) else name.Some?
    case ReturnStatement(_, _, e) => e.Some? ==> Resolves(e.value, false, scope)
    case BinaryExpression(_, _, l, _, r) => Resolves(l, false, scope) && Resolves(r, false, scope)
    case Other(_, _, _, _) => true
  }

  predicate ResolvesAll(ts: seq<Tree>, scope: seq<Port>)
    decreases ts
  {
    forall i :: 0 <= i < |ts| ==> Resolves(ts[i], false, scope)
  }

  // ---------------------------------------------------------------------
  // Unfolding the two cases that visit children in sequence

  lemma RootStep(t: Tree, g: Graph, scope: seq<Port>)
    requires t.FunctionDeclaration?
    requires Process(t, g, true, scope).Success?
    ensures ProcessAll(t.body, WithNode(g, ArgumentsNode(t)), scope + ParamPorts(t.parameters)).Success?
    ensures Process(t, g, true, scope).value
            == Compiled(ProcessAll(t.body, WithNode(g, ArgumentsNode(t)), scope + ParamPorts(t.parameters)).value, Some(NodeId(t)))
  {
  }

  lemma BinaryStep(t: Tree, g: Graph, isRoot: bool, scope: seq<Port>)
    requires t.BinaryExpression?
    requires Process(t, g, isRoot, scope).Success?
    ensures Process(t.left, WithNode(g, BinaryNode(t)), false, scope).Success?
    ensures var cl := Process(t.left, WithNode(g, BinaryNode(t)), false, scope).value;
            var g2 := WithEdge(cl.graph, CreateId("left", t.id), cl.port);
            && Process(t.right, g2, false, scope).Success?
            && var cr := Process(t.right, g2, false, scope).value;
               Process(t, g, isRoot, scope).value == Compiled(WithEdge(cr.graph, CreateId("right", t.id), cr.port), Some(CreateId("return", t.id)))
  {
  }

  lemma ReturnStep(t: Tree, g: Graph, isRoot: bool, scope: seq<Port>)
    requires t.ReturnStatement? && t.expression.Some?
    requires Process(t, g, isRoot, scope).Success?
    ensures Process(t.expression.value, WithNode(g, ReturnNode(t)), false, scope).Success?
    ensures var c := Process(t.expression.value, WithNode(g, ReturnNode(t)), false, scope).value;
            Process(t, g, isRoot, scope).value == Compiled(WithEdge(c.graph, CreateId("return", t.id), c.port), Some(CreateId("return", t.id)))
  {
  }

  // ---------------------------------------------------------------------
  // Edge lists only grow

  lemma CreateEdgeExtends(edges: Edges, inId: string, outId: Option<string>)
    ensures Extends(edges, CreateEdge(edges, inId, outId))
  {
  }

  lemma {:induction false} ProcessExtendsEdges(t: Tree, g: Graph, isRoot: bool, scope: seq<Port>)
    requires Process(t, g, isRoot, scope).Success?
    ensures Extends(g.edges, Process(t, g, isRoot, scope).value.graph.edges)
    decreases t
  {
    match t
    case SourceFile(_, _, sts) =>
      ProcessAllExtendsEdges(sts, g, scope);
    case Identifier(_, _, _) =>
    case FunctionDeclaration(_, _, _, ps, body) =>
      if isRoot {
        ProcessAllExtendsEdges(body, WithNode(g, ArgumentsNode(t)), scope + ParamPorts(ps));
      }
    case ReturnStatement(id, _, e) =>
      if e.Some? {
        var g1 := WithNode(g, ReturnNode(t));
        ProcessExtendsEdges(e.value, g1, false, scope);
        var c := Process(e.value, g1, false, scope).value;
        CreateEdgeExtends(c.graph.edges, CreateId("return", id), c.port);
        ExtendsTrans(g.edges, c.graph.edges, CreateEdge(c.graph.edges, CreateId("return", id), c.port));
      }
    case BinaryExpression(id, _, l, _, r) =>
      var g1 := WithNode(g, BinaryNode(t));
      ProcessExtendsEdges(l, g1, false, scope);
      var cl := Process(l, g1, false, scope).value;
      var g2 := WithEdge(cl.graph, CreateId("left", id), cl.port);
      CreateEdgeExtends(cl.graph.edges, CreateId("left", id), cl.port);
      ExtendsTrans(g.edges, cl.graph.edges, g2.edges);
      ProcessExtendsEdges(r, g2, false, scope);
      var cr := Process(r, g2, false, scope).value;
      ExtendsTrans(g.edges, g2.edges, cr.graph.edges);
      CreateEdgeExtends(cr.graph.edges, CreateId("right", id), cr.port);
      ExtendsTrans(g.edges, cr.graph.edges, CreateEdge(cr.graph.edges, CreateId("right", id), cr.port));
    case Other(_, _, _, _) =>
  }

  lemma {:induction false} ProcessAllExtendsEdges(ts: seq<Tree>, g: Graph, scope: seq<Port>)
    requires ProcessAll(ts, g, scope).Success?
    ensures Extends(g.edges, ProcessAll(ts, g, scope).value.edges)
    decreases ts
  {
    if |ts| > 0 {
      ProcessExtendsEdges(ts[0], g, false, scope);
      var c := Process(ts[0], g, false, scope).value;
      ProcessAllExtendsEdges(ts[1..], c.graph, scope);
      ExtendsTrans(g.edges, c.graph.edges, ProcessAll(ts[1..], c.graph, scope).value.edges);
    }
  }

  // ---------------------------------------------------------------------
  // The keys a visit adds

  lemma {:induction false} ProcessKeys(t: Tree, g: Graph, isRoot: bool, scope: seq<Port>)
    requires Process(t, g, isRoot, scope).Success?
    ensures NodeIds(Process(t, g, isRoot, scope).value.graph.nodes) == NodeIds(g.nodes) + Elems(Emitted(t, isRoot))
    ensures Process(t, g, isRoot, scope).value.graph.edges.Keys == g.edges.Keys + Elems(Wired(t, isRoot))
    decreases t, 1
  {
    match t
    case SourceFile(_, _, sts) =>
      ProcessAllKeys(sts, g, scope);
    case Identifier(_, _, _) =>
    case FunctionDeclaration(_, _, _, ps, body) =>
      if isRoot {
        ProcessAllKeys(body, WithNode(g, ArgumentsNode(t)), scope + ParamPorts(ps));
        ElemsConcat([NodeId(t)], EmittedAll(body));
      }
    case ReturnStatement(_, _, _) =>
      ProcessKeysReturn(t, g, isRoot, scope);
    case BinaryExpression(_, _, _, _, _) =>
      ProcessKeysBinary(t, g, isRoot, scope);
    case Other(_, _, _, _) =>
  }

  lemma {:induction false} ProcessKeysReturn(t: Tree, g: Graph, isRoot: bool, scope: seq<Port>)
    requires t.ReturnStatement?
    requires Process(t, g, isRoot, scope).Success?
    ensures NodeIds(Process(t, g, isRoot, scope).value.graph.nodes) == NodeIds(g.nodes) + Elems(Emitted(t, isRoot))
    ensures Process(t, g, isRoot, scope).value.graph.edges.Keys == g.edges.Keys + Elems(Wired(t, isRoot))
    decreases t, 0
  {
    var ReturnStatement(id, _, e) := t;
    var g1 := WithNode(g, ReturnNode(t));
    if e.Some? {
      ReturnStep(t, g, isRoot, scope);
      ProcessKeys(e.value, g1, false, scope);
      assert NodeIds(g1.nodes) == NodeIds(g.nodes) + {NodeId(t)};
      ReturnKeys(t, isRoot, g, Process(e.value, g1, false, scope).value.graph, Process(t, g, isRoot, scope).value.graph);
    } else {
      assert Emitted(t, isRoot) == [NodeId(t)];
      assert Elems([NodeId(t)]) == {NodeId(t)};
    }
  }

  /** The return case from its operand's facts: one more node, one more
      consumer `return_<id>`. */
  lemma ReturnKeys(t: Tree, isRoot: bool, g: Graph, ge: Graph, result: Graph)
    requires t.ReturnStatement? && t.expression.Some?
    requires NodeIds(ge.nodes) == NodeIds(g.nodes) + {NodeId(t)} + Elems(Emitted(t.expression.value, false))
    requires ge.edges.Keys == g.edges.Keys + Elems(Wired(t.expression.value, false))
    requires result.nodes == ge.nodes && result.edges.Keys == ge.edges.Keys + {CreateId("return", t.id)}
    ensures NodeIds(result.nodes) == NodeIds(g.nodes) + Elems(Emitted(t, isRoot))
    ensures result.edges.Keys == g.edges.Keys + Elems(Wired(t, isRoot))
  {
    var e := t.expression.value;
    assert Elems([NodeId(t)]) == {NodeId(t)};
    assert Elems([CreateId("return", t.id)]) == {CreateId("return", t.id)};
    ElemsConcat(Wired(e, false), [CreateId("return", t.id)]);
    ElemsConcat([NodeId(t)], Emitted(e, false));
  }

  lemma {:induction false} ProcessKeysBinary(t: Tree, g: Graph, isRoot: bool, scope: seq<Port>)
    requires t.BinaryExpression?
    requires Process(t, g, isRoot, scope).Success?
    ensures NodeIds(Process(t, g, isRoot, scope).value.graph.nodes) == NodeIds(g.nodes) + Elems(Emitted(t, isRoot))
    ensures Process(t, g, isRoot, scope).value.graph.edges.Keys == g.edges.Keys + Elems(Wired(t, isRoot))
    decreases t, 0
  {
    var BinaryExpression(id, _, l, _, r) := t;
    var g1 := WithNode(g, BinaryNode(t));
    BinaryStep(t, g, isRoot, scope);
    ProcessKeys(l, g1, false, scope);
    var cl := Process(l, g1, false, scope).value;
    var g2 := WithEdge(cl.graph, CreateId("left", id), cl.port);
    ProcessKeys(r, g2, false, scope);
    var cr := Process(r, g2, false, scope).value;
    var result := Process(t, g, isRoot, scope).value.graph;
    assert NodeIds(g1.nodes) == NodeIds(g.nodes) + {NodeId(t)};
    BinaryNodeKeys(t, isRoot, g, cl.graph, cr.graph, result);
    BinaryEdgeKeys(t, isRoot, g, cl.graph, cr.graph, result);
  }

  /** The node half of the binary case, from the two operands' facts. */
  lemma BinaryNodeKeys(t: Tree, isRoot: bool, g: Graph, gl: Graph, gr: Graph, result: Graph)
    requires t.BinaryExpression?
    requires NodeIds(gl.nodes) == NodeIds(g.nodes) + {NodeId(t)} + Elems(Emitted(t.left, false))
    requires NodeIds(gr.nodes) == NodeIds(gl.nodes) + Elems(Emitted(t.right, false))
    requires result.nodes == gr.nodes
    ensures NodeIds(result.nodes) == NodeIds(g.nodes) + Elems(Emitted(t, isRoot))
  {
    ElemsConcat([NodeId(t)] + Emitted(t.left, false), Emitted(t.right, false));
    ElemsConcat([NodeId(t)], Emitted(t.left, false));
    assert Elems([NodeId(t)]) == {NodeId(t)};
  }

  /** The edge half of the binary case: the left operand's consumers, then
      `left_<id>`, then the right operand's, then `right_<id>`. */
  lemma BinaryEdgeKeys(t: Tree, isRoot: bool, g: Graph, gl: Graph, gr: Graph, result: Graph)
    requires t.BinaryExpression?
    requires gl.edges.Keys == g.edges.Keys + Elems(Wired(t.left, false))
    requires gr.edges.Keys == gl.edges.Keys + {CreateId("left", t.id)} + Elems(Wired(t.right, false))
    requires result.edges.Keys == gr.edges.Keys + {CreateId("right", t.id)}
    ensures result.edges.Keys == g.edges.Keys + Elems(Wired(t, isRoot))
  {
    var leftId, rightId := CreateId("left", t.id), CreateId("right", t.id);
    ElemsConcat(Wired(t.left, false) + [leftId] + Wired(t.right, false), [rightId]);
    ElemsConcat(Wired(t.left, false) + [leftId], Wired(t.right, false));
    ElemsConcat(Wired(t.left, false), [leftId]);
    assert Elems([leftId]) == {leftId};
    assert Elems([rightId]) == {rightId};
  }

  lemma {:induction false} ProcessAllKeys(ts: seq<Tree>, g: Graph, scope: seq<Port>)
    requires ProcessAll(ts, g, scope).Success?
    ensures NodeIds(ProcessAll(ts, g, scope).value.nodes) == NodeIds(g.nodes) + Elems(EmittedAll(ts))
    ensures ProcessAll(ts, g, scope).value.edges.Keys == g.edges.Keys + Elems(WiredAll(ts))
    decreases ts
  {
    if |ts| > 0 {
      ProcessKeys(ts[0], g, false, scope);
      ProcessAllKeys(ts[1..], Process(ts[0], g, false, scope).value.graph, scope);
      ElemsConcat(Emitted(ts[0], false), EmittedAll(ts[1..]));
      ElemsConcat(Wired(ts[0], false), WiredAll(ts[1..]));
    }
  }

  // ---------------------------------------------------------------------
  // When the compiler throws

  lemma {:induction false} ProcessSucceedsIffResolves(t: Tree, g: Graph, isRoot: bool, scope: seq<Port>)
    ensures Process(t, g, isRoot, scope).Success? <==> Resolves(t, isRoot, scope)
    decreases t, 1
  {
    match t
    case SourceFile(_, _, sts) =>
      ProcessAllSucceedsIffResolves(sts, g, scope);
    case Identifier(_, _, text) =>
      if Bound(scope, text) {
        var i :| 0 <= i < |scope| && scope[i].text == text;
        assert FindRight(scope, text).Some?;
      }
    case FunctionDeclaration(_, _, _, ps, body) =>
      if isRoot {
        ProcessAllSucceedsIffResolves(body, WithNode(g, ArgumentsNode(t)), scope + ParamPorts(ps));
      }
    case ReturnStatement(id, _, e) =>
      if e.Some? {
        ProcessSucceedsIffResolves(e.value, WithNode(g, ReturnNode(t)), false, scope);
      }
    case BinaryExpression(_, _, _, _, _) =>
      BinarySucceedsIffResolves(t, g, isRoot, scope);
    case Other(_, _, _, _) =>
  }

  lemma {:induction false} BinarySucceedsIffResolves(t: Tree, g: Graph, isRoot: bool, scope: seq<Port>)
    requires t.BinaryExpression?
    ensures Process(t, g, isRoot, scope).Success? <==> Resolves(t, isRoot, scope)
    decreases t, 0
  {
    var g1 := WithNode(g, BinaryNode(t));
    BinarySucceeds(t, g, isRoot, scope);
    ProcessSucceedsIffResolves(t.left, g1, false, scope);
    if Process(t.left, g1, false, scope).Success? {
      var cl := Process(t.left, g1, false, scope).value;
      ProcessSucceedsIffResolves(t.right, WithEdge(cl.graph, CreateId("left", t.id), cl.port), false, scope);
    }
    assert Resolves(t, isRoot, scope) <==> Resolves(t.left, false, scope) && Resolves(t.right, false, scope);
  }

  /** A binary expression compiles exactly when both operands do, the right
      one over the graph the left one left. */
  lemma BinarySucceeds(t: Tree, g: Graph, isRoot: bool, scope: seq<Port>)
    requires t.BinaryExpression?
    ensures var cl := Process(t.left, WithNode(g, BinaryNode(t)), false, scope);
            Process(t, g, isRoot, scope).Success?
            <==> cl.Success? && Process(t.right, WithEdge(cl.value.graph, CreateId("left", t.id), cl.value.port), false, scope).Success?
  {
    var cl := Process(t.left, WithNode(g, BinaryNode(t)), false, scope);
    if cl.Success? {
      var cr := Process(t.right, WithEdge(cl.value.graph, CreateId("left", t.id), cl.value.port), false, scope);
      if cr.Success? {
        assert Process(t, g, isRoot, scope) == Success(Compiled(WithEdge(cr.value.graph, CreateId("right", t.id), cr.value.port), Some(CreateId("return", t.id))));
      } else {
        assert Process(t, g, isRoot, scope) == Failure(cr.error);
      }
    } else {
      assert Process(t, g, isRoot, scope) == Failure(cl.error);
    }
  }

  lemma {:induction false} ProcessAllSucceedsIffResolves(ts: seq<Tree>, g: Graph, scope: seq<Port>)
    ensures ProcessAll(ts, g, scope).Success? <==> ResolvesAll(ts, scope)
    decreases ts
  {
    if |ts| > 0 {
      ProcessSucceedsIffResolves(ts[0], g, false, scope);
      if Process(ts[0], g, false, scope).Success? {
        ProcessAllSucceedsIffResolves(ts[1..], Process(ts[0], g, false, scope).value.graph, scope);
        assert ResolvesAll(ts, scope) <==> Resolves(ts[0], false, scope) && ResolvesAll(ts[1..], scope) by {
          assert forall i :: 1 <= i < |ts| ==> ts[i] == ts[1..][i - 1];
        }
      }
    }
  }

  // ---------------------------------------------------------------------
  // Over distinct ids nothing is overwritten

  ghost predicate FreshFor(nodes: seq<GraphNode>, ids: seq<string>) {
    forall x :: x in ids ==> x !in NodeIds(nodes)
  }

  /** Some node of the table has an input port with this id. */
  ghost predicate HasInput(nodes: seq<GraphNode>, portId: string) {
    exists i, j :: 0 <= i < |nodes| && 0 <= j < |nodes[i].inputs| && nodes[i].inputs[j].id == portId
  }

  /** Every consumer of the edge map is an input port of some node. */
  ghost predicate ConsumersAreInputs(g: Graph) {
    forall k :: k in g.edges ==> HasInput(g.nodes, k)
  }

  lemma HasInputPrefix(nodes: seq<GraphNode>, nodes': seq<GraphNode>, portId: string)
    requires nodes <= nodes' && HasInput(nodes, portId)
    ensures HasInput(nodes', portId)
  {
    var i, j :| 0 <= i < |nodes| && 0 <= j < |nodes[i].inputs| && nodes[i].inputs[j].id == portId;
    assert nodes'[i] == nodes[i];
  }

  lemma NodeIdsOfIdList(nodes: seq<GraphNode>)
    ensures forall x :: x in NodeIds(nodes) <==> x in IdList(nodes)
  {
    forall x | x in IdList(nodes) ensures x in NodeIds(nodes) {
      var i :| 0 <= i < |nodes| && IdList(nodes)[i] == x;
    }
  }

  /** What a visit over fresh, distinct ids does to the graph: the old table
      is kept as a prefix and followed by one node per emitted id, and the
      consumers stay input ports of the table. */
  ghost predicate AppendsTo(g: Graph, g': Graph, emitted: seq<string>) {
    && g.nodes <= g'.nodes
    && IdList(g'.nodes) == IdList(g.nodes) + emitted
    && (ConsumersAreInputs(g) ==> ConsumersAreInputs(g'))
  }

  lemma AppendsToTrans(g1: Graph, g2: Graph, g3: Graph, e1: seq<string>, e2: seq<string>)
    requires AppendsTo(g1, g2, e1) && AppendsTo(g2, g3, e2)
    ensures AppendsTo(g1, g3, e1 + e2)
  {
  }

  lemma PutFresh(g: Graph, node: GraphNode)
    requires node.id !in NodeIds(g.nodes)
    ensures AppendsTo(g, WithNode(g, node), [node.id])
  {
    var g' := WithNode(g, node);
    assert g'.nodes == g.nodes + [node];
    if ConsumersAreInputs(g) {
      forall k | k in g'.edges ensures HasInput(g'.nodes, k) {
        HasInputPrefix(g.nodes, g'.nodes, k);
      }
    }
  }

  lemma {:induction false} ProcessAppends(t: Tree, g: Graph, isRoot: bool, scope: seq<Port>)
    requires Process(t, g, isRoot, scope).Success?
    requires Distinct(Emitted(t, isRoot)) && FreshFor(g.nodes, Emitted(t, isRoot))
    ensures AppendsTo(g, Process(t, g, isRoot, scope).value.graph, Emitted(t, isRoot))
    decreases t, 1
  {
    match t
    case SourceFile(_, _, sts) =>
      ProcessAllAppends(sts, g, scope);
    case Identifier(_, _, _) =>
    case FunctionDeclaration(_, _, _, _, _) =>
      if isRoot {
        ProcessAppendsRoot(t, g, scope);
      } else {
        PutFresh(g, FunctionBox(t));
      }
    case ReturnStatement(_, _, _) =>
      ProcessAppendsReturn(t, g, isRoot, scope);
    case BinaryExpression(_, _, _, _, _) =>
      ProcessAppendsBinary(t, g, isRoot, scope);
    case Other(_, _, _, _) =>
  }

  lemma {:induction false} ProcessAppendsRoot(t: Tree, g: Graph, scope: seq<Port>)
    requires t.FunctionDeclaration?
    requires Process(t, g, true, scope).Success?
    requires Distinct(Emitted(t, true)) && FreshFor(g.nodes, Emitted(t, true))
    ensures AppendsTo(g, Process(t, g, true, scope).value.graph, Emitted(t, true))
    decreases t, 0
  {
    var g1 := WithNode(g, ArgumentsNode(t));
    var scope' := scope + ParamPorts(t.parameters);
    RootStep(t, g, scope);
    PutFresh(g, ArgumentsNode(t));
    DistinctConcat([NodeId(t)], EmittedAll(t.body));
    NodeIdsOfIdList(g1.nodes);
    ProcessAllAppends(t.body, g1, scope');
    AppendsToTrans(g, g1, ProcessAll(t.body, g1, scope').value, [NodeId(t)], EmittedAll(t.body));
  }

  lemma {:induction false} ProcessAppendsReturn(t: Tree, g: Graph, isRoot: bool, scope: seq<Port>)
    requires t.ReturnStatement?
    requires Process(t, g, isRoot, scope).Success?
    requires Distinct(Emitted(t, isRoot)) && FreshFor(g.nodes, Emitted(t, isRoot))
    ensures AppendsTo(g, Process(t, g, isRoot, scope).value.graph, Emitted(t, isRoot))
    decreases t, 0
  {
    var ReturnStatement(id, _, e) := t;
    var g1 := WithNode(g, ReturnNode(t));
    PutFresh(g, ReturnNode(t));
    if e.Some? {
      ReturnStep(t, g, isRoot, scope);
      assert Distinct(Emitted(e.value, false)) && FreshFor(g1.nodes, Emitted(e.value, false)) by {
        DistinctConcat([NodeId(t)], Emitted(e.value, false));
        NodeIdsOfIdList(g1.nodes);
      }
      ProcessAppends(e.value, g1, false, scope);
      var c := Process(e.value, g1, false, scope).value;
      AppendsToTrans(g, g1, c.graph, [NodeId(t)], Emitted(e.value, false));
      if ConsumersAreInputs(g) {
        ReturnWireKeepsInputs(t, g, c.graph, c.port);
      }
      AppendsThroughWire(g, c.graph, Emitted(t, isRoot), CreateId("return", id), c.port);
    } else {
      assert Emitted(t, isRoot) == [NodeId(t)];
    }
  }

  /** A wire adds no node, so it keeps an append that kept the consumers. */
  lemma AppendsThroughWire(g: Graph, gc: Graph, emitted: seq<string>, k: string, port: Option<string>)
    requires AppendsTo(g, gc, emitted)
    requires ConsumersAreInputs(g) ==> ConsumersAreInputs(WithEdge(gc, k, port))
    ensures AppendsTo(g, WithEdge(gc, k, port), emitted)
  {
  }

  /** The return node's input is in the table, so wiring it keeps every
      consumer an input port. */
  lemma ReturnWireKeepsInputs(t: Tree, g: Graph, gc: Graph, port: Option<string>)
    requires t.ReturnStatement?
    requires WithNode(g, ReturnNode(t)).nodes <= gc.nodes && ConsumersAreInputs(gc)
    ensures ConsumersAreInputs(WithEdge(gc, CreateId("return", t.id), port))
  {
    var g1 := WithNode(g, ReturnNode(t));
    var i :| 0 <= i < |g1.nodes| && g1.nodes[i] == ReturnNode(t);
    assert g1.nodes[i].inputs[0].id == CreateId("return", t.id);
    assert HasInput(g1.nodes, CreateId("return", t.id));
    HasInputPrefix(g1.nodes, gc.nodes, CreateId("return", t.id));
  }

  lemma {:induction false} ProcessAppendsBinary(t: Tree, g: Graph, isRoot: bool, scope: seq<Port>)
    requires t.BinaryExpression?
    requires Process(t, g, isRoot, scope).Success?
    requires Distinct(Emitted(t, isRoot)) && FreshFor(g.nodes, Emitted(t, isRoot))
    ensures AppendsTo(g, Process(t, g, isRoot, scope).value.graph, Emitted(t, isRoot))
    decreases t, 0
  {
    var BinaryExpression(id, _, l, _, r) := t;
    BinaryStep(t, g, isRoot, scope);
    var leftId, rightId := CreateId("left", id), CreateId("right", id);
    var g1 := WithNode(g, BinaryNode(t));
    PutFresh(g, BinaryNode(t));
    DistinctConcat([NodeId(t)] + Emitted(l, false), Emitted(r, false));
    DistinctConcat([NodeId(t)], Emitted(l, false));
    assert Emitted(t, isRoot) == [NodeId(t)] + Emitted(l, false) + Emitted(r, false);
    assert FreshFor(g1.nodes, Emitted(l, false)) by {
      forall x | x in Emitted(l, false) ensures x !in NodeIds(g1.nodes) {
        assert x in Emitted(t, isRoot);
      }
    }
    ProcessAppends(l, g1, false, scope);
    var cl := Process(l, g1, false, scope).value;
    AppendsToTrans(g, g1, cl.graph, [NodeId(t)], Emitted(l, false));
    var g2 := WithEdge(cl.graph, leftId, cl.port);
    assert g1.nodes[|g.nodes|].inputs[0].id == leftId;
    assert g1.nodes[|g.nodes|].inputs[1].id == rightId;
    assert HasInput(g1.nodes, leftId) && HasInput(g1.nodes, rightId);
    HasInputPrefix(g1.nodes, cl.graph.nodes, leftId);
    HasInputPrefix(g1.nodes, cl.graph.nodes, rightId);
    assert AppendsTo(g, g2, [NodeId(t)] + Emitted(l, false));
    assert FreshFor(g2.nodes, Emitted(r, false)) by {
      NodeIdsOfIdList(g.nodes);
      NodeIdsOfIdList(g2.nodes);
      forall x | x in Emitted(r, false) ensures x !in NodeIds(g2.nodes) {
        assert x in Emitted(t, isRoot);
        assert x !in [NodeId(t)] + Emitted(l, false);
        assert x !in IdList(g.nodes);
        assert x !in IdList(g.nodes) + ([NodeId(t)] + Emitted(l, false));
      }
    }
    ProcessAppends(r, g2, false, scope);
    var cr := Process(r, g2, false, scope).value;
    AppendsToTrans(g, g2, cr.graph, [NodeId(t)] + Emitted(l, false), Emitted(r, false));
    var g' := WithEdge(cr.graph, rightId, cr.port);
    if ConsumersAreInputs(g) {
      HasInputPrefix(cl.graph.nodes, cr.graph.nodes, rightId);
      assert ConsumersAreInputs(cr.graph);
      assert ConsumersAreInputs(g');
    }
    assert AppendsTo(g, g', Emitted(t, isRoot));
  }

  lemma {:induction false} ProcessAllAppends(ts: seq<Tree>, g: Graph, scope: seq<Port>)
    requires ProcessAll(ts, g, scope).Success?
    requires Distinct(EmittedAll(ts)) && FreshFor(g.nodes, EmittedAll(ts))
    ensures AppendsTo(g, ProcessAll(ts, g, scope).value, EmittedAll(ts))
    decreases ts
  {
    if |ts| > 0 {
      DistinctConcat(Emitted(ts[0], false), EmittedAll(ts[1..]));
      ProcessAppends(ts[0], g, false, scope);
      var c := Process(ts[0], g, false, scope).value;
      NodeIdsOfIdList(g.nodes);
      NodeIdsOfIdList(c.graph.nodes);
      ProcessAllAppends(ts[1..], c.graph, scope);
      AppendsToTrans(g, c.graph, ProcessAll(ts[1..], c.graph, scope).value, Emitted(ts[0], false), EmittedAll(ts[1..]));
    }
  }

  // ---------------------------------------------------------------------
  // Distinct numeric ids give distinct node ids and consumer ids

  /** The numeric id at the end of a composite id. */
  ghost predicate NumberedFrom(x: string, ids: seq<nat>) {
    SplitId(x).Some? && SplitId(x).value.1 in ids
  }

  lemma NumberedFromCreateId(kind: string, id: nat, ids: seq<nat>)
    ensures NumberedFrom(CreateId(kind, id), ids) <==> id in ids
  {
    SplitCreateId(kind, id);
  }

  /** Every id of the list ends in a number from `ids`. */
  ghost predicate AllNumbered(xs: seq<string>, ids: seq<nat>) {
    forall x :: x in xs ==> NumberedFrom(x, ids)
  }

  lemma AllNumberedConcat(a: seq<string>, b: seq<string>, ids: seq<nat>)
    requires AllNumbered(a, ids) && AllNumbered(b, ids)
    ensures AllNumbered(a + b, ids)
  {
  }

  lemma AllNumberedWiden(xs: seq<string>, a: seq<nat>, b: seq<nat>)
    requires AllNumbered(xs, a) && forall n :: n in a ==> n in b
    ensures AllNumbered(xs, b)
  {
    forall x | x in xs ensures NumberedFrom(x, b) {
      NumberedFromWiden(x, a, b);
    }
  }

  lemma AllNumberedCreateId(kind: string, id: nat, ids: seq<nat>)
    requires id in ids
    ensures AllNumbered([CreateId(kind, id)], ids)
  {
    NumberedFromCreateId(kind, id, ids);
  }

  lemma {:induction false} IdsNumberedFromTree(t: Tree, isRoot: bool)
    ensures AllNumbered(Emitted(t, isRoot), TreeIds(t))
    ensures AllNumbered(Wired(t, isRoot), TreeIds(t))
    decreases t
  {
    match t
    case SourceFile(_, _, sts) =>
      IdsNumberedFromTrees(sts);
      AllNumberedWiden(EmittedAll(sts), TreeIdsAll(sts), TreeIds(t));
      AllNumberedWiden(WiredAll(sts), TreeIdsAll(sts), TreeIds(t));
    case Identifier(_, _, _) =>
    case FunctionDeclaration(_, _, _, ps, body) =>
      AllNumberedCreateId(KindName(t), t.id, TreeIds(t));
      if isRoot {
        IdsNumberedFromTrees(body);
        assert forall n :: n in TreeIdsAll(body) ==> n in TreeIds(t);
        AllNumberedWiden(EmittedAll(body), TreeIdsAll(body), TreeIds(t));
        AllNumberedWiden(WiredAll(body), TreeIdsAll(body), TreeIds(t));
        AllNumberedConcat([NodeId(t)], EmittedAll(body), TreeIds(t));
      }
    case ReturnStatement(id, _, e) =>
      AllNumberedCreateId(KindName(t), id, TreeIds(t));
      if e.Some? {
        IdsNumberedFromTree(e.value, false);
        assert forall n :: n in TreeIds(e.value) ==> n in TreeIds(t);
        AllNumberedWiden(Emitted(e.value, false), TreeIds(e.value), TreeIds(t));
        AllNumberedWiden(Wired(e.value, false), TreeIds(e.value), TreeIds(t));
        AllNumberedCreateId("return", id, TreeIds(t));
        AllNumberedConcat([NodeId(t)], Emitted(e.value, false), TreeIds(t));
        AllNumberedConcat(Wired(e.value, false), [CreateId("return", id)], TreeIds(t));
      }
    case BinaryExpression(_, _, _, _, _) =>
      IdsNumberedFromBinary(t, isRoot);
    case Other(_, _, _, sts) =>
  }

  lemma {:induction false} IdsNumberedFromBinary(t: Tree, isRoot: bool)
    requires t.BinaryExpression?
    ensures AllNumbered(Emitted(t, isRoot), TreeIds(t))
    ensures AllNumbered(Wired(t, isRoot), TreeIds(t))
    decreases t, 0
  {
    var BinaryExpression(id, _, l, _, r) := t;
    var ids := TreeIds(t);
    assert ids == [id] + TreeIds(l) + TreeIds(r);
    IdsNumberedFromTree(l, false);
    IdsNumberedFromTree(r, false);
    AllNumberedWiden(Emitted(l, false), TreeIds(l), ids);
    AllNumberedWiden(Wired(l, false), TreeIds(l), ids);
    AllNumberedWiden(Emitted(r, false), TreeIds(r), ids);
    AllNumberedWiden(Wired(r, false), TreeIds(r), ids);
    AllNumberedCreateId(KindName(t), id, ids);
    AllNumberedCreateId("left", id, ids);
    AllNumberedCreateId("right", id, ids);
    AllNumberedConcat([NodeId(t)], Emitted(l, false), ids);
    AllNumberedConcat([NodeId(t)] + Emitted(l, false), Emitted(r, false), ids);
    AllNumberedConcat(Wired(l, false), [CreateId("left", id)], ids);
    AllNumberedConcat(Wired(l, false) + [CreateId("left", id)], Wired(r, false), ids);
    AllNumberedConcat(Wired(l, false) + [CreateId("left", id)] + Wired(r, false), [CreateId("right", id)], ids);
  }

  lemma NumberedFromWiden(x: string, a: seq<nat>, b: seq<nat>)
    requires NumberedFrom(x, a) && forall n :: n in a ==> n in b
    ensures NumberedFrom(x, b)
  {
  }

  lemma {:induction false} IdsNumberedFromTrees(ts: seq<Tree>)
    ensures AllNumbered(EmittedAll(ts), TreeIdsAll(ts))
    ensures AllNumbered(WiredAll(ts), TreeIdsAll(ts))
    decreases ts
  {
    if |ts| > 0 {
      var ids := TreeIdsAll(ts);
      assert ids == TreeIds(ts[0]) + TreeIdsAll(ts[1..]);
      IdsNumberedFromTree(ts[0], false);
      IdsNumberedFromTrees(ts[1..]);
      AllNumberedWiden(Emitted(ts[0], false), TreeIds(ts[0]), ids);
      AllNumberedWiden(Wired(ts[0], false), TreeIds(ts[0]), ids);
      AllNumberedWiden(EmittedAll(ts[1..]), TreeIdsAll(ts[1..]), ids);
      AllNumberedWiden(WiredAll(ts[1..]), TreeIdsAll(ts[1..]), ids);
      AllNumberedConcat(Emitted(ts[0], false), EmittedAll(ts[1..]), ids);
      AllNumberedConcat(Wired(ts[0], false), WiredAll(ts[1..]), ids);
    }
  }

  /** Two id lists whose numeric parts come from disjoint id lists share
      no element. */
  lemma DisjointByNumber(a: seq<string>, b: seq<string>, na: seq<nat>, nb: seq<nat>)
    requires forall x :: x in a ==> NumberedFrom(x, na)
    requires forall x :: x in b ==> NumberedFrom(x, nb)
    requires forall n :: n in na ==> n !in nb
    ensures forall x :: x in a ==> x !in b
  {
  }

  lemma {:induction false} DistinctIdsGiveDistinctPorts(t: Tree, isRoot: bool)
    requires DistinctIds(t)
    ensures Distinct(Emitted(t, isRoot)) && Distinct(Wired(t, isRoot))
    decreases t
  {
    match t
    case SourceFile(id, _, sts) =>
      DistinctConcat([id], TreeIdsAll(sts));
      DistinctIdsGiveDistinctTrees(sts);
    case Identifier(_, _, _) =>
    case FunctionDeclaration(_, _, _, _, _) =>
      DistinctPortsFunction(t, isRoot);
    case ReturnStatement(_, _, _) =>
      DistinctPortsReturn(t, isRoot);
    case BinaryExpression(_, _, _, _, _) =>
      DistinctPortsBinary(t, isRoot);
    case Other(id, _, _, sts) =>
      DistinctConcat([id], TreeIdsAll(sts));
      DistinctIdsGiveDistinctTrees(sts);
  }

  lemma {:induction false} DistinctPortsFunction(t: Tree, isRoot: bool)
    requires t.FunctionDeclaration? && DistinctIds(t)
    ensures Distinct(Emitted(t, isRoot)) && Distinct(Wired(t, isRoot))
    decreases t, 1
  {
    var FunctionDeclaration(id, _, _, ps, body) := t;
    var paramIds := seq(|ps|, i requires 0 <= i < |ps| => ps[i].id);
    DistinctConcat([id] + paramIds, TreeIdsAll(body));
    DistinctConcat([id], paramIds);
    DistinctIdsGiveDistinctTrees(body);
    if isRoot {
      IdsNumberedFromTrees(body);
      NumberedFromCreateId(KindName(t), id, [id]);
      DisjointByNumber([NodeId(t)], EmittedAll(body), [id], TreeIdsAll(body));
      DistinctJoin([NodeId(t)], EmittedAll(body));
    }
  }

  lemma {:induction false} DistinctPortsReturn(t: Tree, isRoot: bool)
    requires t.ReturnStatement? && DistinctIds(t)
    ensures Distinct(Emitted(t, isRoot)) && Distinct(Wired(t, isRoot))
    decreases t, 1
  {
    var ReturnStatement(id, _, e) := t;
    if e.Some? {
      DistinctConcat([id], TreeIds(e.value));
      DistinctIdsGiveDistinctPorts(e.value, false);
      IdsNumberedFromTree(e.value, false);
      NumberedFromCreateId(KindName(t), id, [id]);
      NumberedFromCreateId("return", id, [id]);
      DisjointByNumber([NodeId(t)], Emitted(e.value, false), [id], TreeIds(e.value));
      DistinctJoin([NodeId(t)], Emitted(e.value, false));
      DisjointByNumber(Wired(e.value, false), [CreateId("return", id)], TreeIds(e.value), [id]);
      DistinctJoin(Wired(e.value, false), [CreateId("return", id)]);
    }
  }

  /** The facts about a binary expression's ids both halves below use. */
  lemma BinaryIdFacts(t: Tree)
    requires t.BinaryExpression? && DistinctIds(t)
    ensures DistinctIds(t.left) && DistinctIds(t.right)
    ensures forall n :: n in TreeIds(t.left) ==> n !in TreeIds(t.right)
    ensures t.id !in TreeIds(t.left) && t.id !in TreeIds(t.right)
  {
    var BinaryExpression(id, _, l, _, r) := t;
    DistinctConcat([id] + TreeIds(l), TreeIds(r));
    DistinctConcat([id], TreeIds(l));
    forall n | n in TreeIds(l) ensures n !in TreeIds(r) {
      assert n in [id] + TreeIds(l);
    }
    assert id in [id] + TreeIds(l);
  }

  lemma {:induction false} DistinctPortsBinary(t: Tree, isRoot: bool)
    requires t.BinaryExpression? && DistinctIds(t)
    ensures Distinct(Emitted(t, isRoot)) && Distinct(Wired(t, isRoot))
    decreases t, 1
  {
    BinaryIdFacts(t);
    DistinctIdsGiveDistinctPorts(t.left, false);
    DistinctIdsGiveDistinctPorts(t.right, false);
    IdsNumberedFromTree(t.left, false);
    IdsNumberedFromTree(t.right, false);
    DistinctNodesBinary(t, isRoot);
    DistinctConsumersBinary(t, isRoot);
  }

  lemma DistinctNodesBinary(t: Tree, isRoot: bool)
    requires t.BinaryExpression?
    requires forall n :: n in TreeIds(t.left) ==> n !in TreeIds(t.right)
    requires t.id !in TreeIds(t.left) && t.id !in TreeIds(t.right)
    requires Distinct(Emitted(t.left, false)) && Distinct(Emitted(t.right, false))
    requires forall x :: x in Emitted(t.left, false) ==> NumberedFrom(x, TreeIds(t.left))
    requires forall x :: x in Emitted(t.right, false) ==> NumberedFrom(x, TreeIds(t.right))
    ensures Distinct(Emitted(t, isRoot))
  {
    var BinaryExpression(id, _, l, _, r) := t;
    NumberedFromCreateId(KindName(t), id, [id]);
    DisjointByNumber([NodeId(t)], Emitted(l, false), [id], TreeIds(l));
    DistinctJoin([NodeId(t)], Emitted(l, false));
    DisjointByNumber([NodeId(t)] + Emitted(l, false), Emitted(r, false), [id] + TreeIds(l), TreeIds(r));
    DistinctJoin([NodeId(t)] + Emitted(l, false), Emitted(r, false));
  }

  lemma DistinctConsumersBinary(t: Tree, isRoot: bool)
    requires t.BinaryExpression?
    requires forall n :: n in TreeIds(t.left) ==> n !in TreeIds(t.right)
    requires t.id !in TreeIds(t.left) && t.id !in TreeIds(t.right)
    requires Distinct(Wired(t.left, false)) && Distinct(Wired(t.right, false))
    requires forall x :: x in Wired(t.left, false) ==> NumberedFrom(x, TreeIds(t.left))
    requires forall x :: x in Wired(t.right, false) ==> NumberedFrom(x, TreeIds(t.right))
    ensures Distinct(Wired(t, isRoot))
  {
    var BinaryExpression(id, _, l, _, r) := t;
    assert Wired(t, isRoot) == Wired(l, false) + [CreateId("left", id)] + Wired(r, false) + [CreateId("right", id)];
    DistinctWiresAround(Wired(l, false), Wired(r, false), id, TreeIds(l), TreeIds(r));
  }

  /** The consumers of the two operands, numbered from disjoint id lists
      that both miss `id`, stay distinct around `left_<id>` and
      `right_<id>`. */
  lemma DistinctWiresAround(wl: seq<string>, wr: seq<string>, id: nat, il: seq<nat>, ir: seq<nat>)
    requires forall n :: n in il ==> n !in ir
    requires id !in il && id !in ir
    requires Distinct(wl) && Distinct(wr)
    requires forall x :: x in wl ==> NumberedFrom(x, il)
    requires forall x :: x in wr ==> NumberedFrom(x, ir)
    ensures Distinct(wl + [CreateId("left", id)] + wr + [CreateId("right", id)])
  {
    var leftId, rightId := CreateId("left", id), CreateId("right", id);
    NumberedFromCreateId("left", id, [id]);
    NumberedFromCreateId("right", id, [id]);
    DisjointByNumber(wl, [leftId], il, [id]);
    DistinctJoin(wl, [leftId]);
    DisjointByNumber(wl + [leftId], wr, [id] + il, ir);
    DistinctJoin(wl + [leftId], wr);
    var front := wl + [leftId] + wr;
    forall x | x in front ensures x != rightId {
      if x == leftId {
        if leftId == rightId {
          CreateIdInjective("left", id, "right", id);
        }
      } else if x in wl {
        NumberedFromCreateId("right", id, il);
      } else {
        NumberedFromCreateId("right", id, ir);
      }
    }
    DistinctJoin(front, [rightId]);
  }

  lemma {:induction false} DistinctIdsGiveDistinctTrees(ts: seq<Tree>)
    requires Distinct(TreeIdsAll(ts))
    ensures Distinct(EmittedAll(ts)) && Distinct(WiredAll(ts))
    decreases ts
  {
    if |ts| > 0 {
      DistinctConcat(TreeIds(ts[0]), TreeIdsAll(ts[1..]));
      DistinctIdsGiveDistinctPorts(ts[0], false);
      DistinctIdsGiveDistinctTrees(ts[1..]);
      IdsNumberedFromTree(ts[0], false);
      IdsNumberedFromTrees(ts[1..]);
      DisjointByNumber(Emitted(ts[0], false), EmittedAll(ts[1..]), TreeIds(ts[0]), TreeIdsAll(ts[1..]));
      DistinctJoin(Emitted(ts[0], false), EmittedAll(ts[1..]));
      DisjointByNumber(Wired(ts[0], false), WiredAll(ts[1..]), TreeIds(ts[0]), TreeIdsAll(ts[1..]));
      DistinctJoin(Wired(ts[0], false), WiredAll(ts[1..]));
    }
  }

  // ---------------------------------------------------------------------
  // Over fresh, distinct consumers every input gets exactly one producer

  /** `e'` keeps every list of `e` and holds exactly one producer for each
      consumer in `wired`. */
  ghost predicate WiresOnce(e: Edges, e': Edges, wired: seq<string>) {
    && (forall k :: k in e ==> k in e' && e'[k] == e[k])
    && (forall k :: k in wired ==> k in e' && |e'[k]| == 1)
  }

  lemma WiresOnceTrans(e1: Edges, e2: Edges, e3: Edges, w1: seq<string>, w2: seq<string>)
    requires WiresOnce(e1, e2, w1) && WiresOnce(e2, e3, w2)
    ensures WiresOnce(e1, e3, w1 + w2)
  {
  }

  lemma CreateEdgeFresh(e: Edges, k: string, v: Option<string>)
    requires k !in e
    ensures WiresOnce(e, CreateEdge(e, k, v), [k])
  {
  }

  /** A visit that wired `w` once, followed by one fresh wire into `k`. */
  lemma WireFreshAfter(e1: Edges, e2: Edges, w: seq<string>, k: string, v: Option<string>)
    requires WiresOnce(e1, e2, w) && k !in e2
    ensures WiresOnce(e1, CreateEdge(e2, k, v), w + [k])
  {
    CreateEdgeFresh(e2, k, v);
    WiresOnceTrans(e1, e2, CreateEdge(e2, k, v), w, [k]);
  }

  ghost predicate FreshKeys(e: Edges, wired: seq<string>) {
    forall k :: k in wired ==> k !in e
  }

  lemma {:induction false} ProcessWiresOnce(t: Tree, g: Graph, isRoot: bool, scope: seq<Port>)
    requires Process(t, g, isRoot, scope).Success?
    requires Distinct(Wired(t, isRoot)) && FreshKeys(g.edges, Wired(t, isRoot))
    ensures WiresOnce(g.edges, Process(t, g, isRoot, scope).value.graph.edges, Wired(t, isRoot))
    decreases t, 2
  {
    match t
    case SourceFile(_, _, sts) =>
      ProcessAllWiresOnce(sts, g, scope);
    case Identifier(_, _, _) =>
    case FunctionDeclaration(_, _, _, ps, body) =>
      if isRoot {
        ProcessAllWiresOnce(body, WithNode(g, ArgumentsNode(t)), scope + ParamPorts(ps));
      }
    case ReturnStatement(id, _, e) =>
      if e.Some? {
        ReturnStep(t, g, isRoot, scope);
        var g1 := WithNode(g, ReturnNode(t));
        DistinctConcat(Wired(e.value, false), [CreateId("return", id)]);
        ProcessWiresOnce(e.value, g1, false, scope);
        var c := Process(e.value, g1, false, scope).value;
        ProcessKeys(e.value, g1, false, scope);
        WireFreshAfter(g.edges, c.graph.edges, Wired(e.value, false), CreateId("return", id), c.port);
      }
    case BinaryExpression(_, _, _, _, _) =>
      ProcessWiresOnceBinary(t, g, isRoot, scope);
    case Other(_, _, _, _) =>
  }

  lemma {:induction false} ProcessWiresOnceBinary(t: Tree, g: Graph, isRoot: bool, scope: seq<Port>)
    requires t.BinaryExpression?
    requires Process(t, g, isRoot, scope).Success?
    requires Distinct(Wired(t, isRoot)) && FreshKeys(g.edges, Wired(t, isRoot))
    ensures WiresOnce(g.edges, Process(t, g, isRoot, scope).value.graph.edges, Wired(t, isRoot))
    decreases t, 1
  {
    var BinaryExpression(id, _, l, _, r) := t;
    var leftId, rightId := CreateId("left", id), CreateId("right", id);
    BinaryStep(t, g, isRoot, scope);
    var wl, wr := Wired(l, false), Wired(r, false);
    assert Wired(t, isRoot) == wl + [leftId] + wr + [rightId];
    DistinctConcat(wl + [leftId] + wr, [rightId]);
    LeftWiresOnce(t, g, isRoot, scope);
    var cl := Process(l, WithNode(g, BinaryNode(t)), false, scope).value;
    var g2 := WithEdge(cl.graph, leftId, cl.port);
    ProcessWiresOnce(r, g2, false, scope);
    ProcessKeys(r, g2, false, scope);
    var cr := Process(r, g2, false, scope).value;
    WiresOnceTrans(g.edges, g2.edges, cr.graph.edges, wl + [leftId], wr);
    assert rightId !in cr.graph.edges by {
      assert rightId !in wl + [leftId] + wr;
    }
    WireFreshAfter(g.edges, cr.graph.edges, wl + [leftId] + wr, rightId, cr.port);
  }

  /** The left half of a binary expression wires its consumers once each
      and leaves the right operand's consumers fresh. */
  lemma {:induction false} LeftWiresOnce(t: Tree, g: Graph, isRoot: bool, scope: seq<Port>)
    requires t.BinaryExpression?
    requires Process(t, g, isRoot, scope).Success?
    requires Distinct(Wired(t, isRoot)) && FreshKeys(g.edges, Wired(t, isRoot))
    ensures var cl := Process(t.left, WithNode(g, BinaryNode(t)), false, scope).value;
            var g2 := WithEdge(cl.graph, CreateId("left", t.id), cl.port);
            && WiresOnce(g.edges, g2.edges, Wired(t.left, false) + [CreateId("left", t.id)])
            && Distinct(Wired(t.right, false)) && FreshKeys(g2.edges, Wired(t.right, false))
            && CreateId("right", t.id) !in g2.edges
    decreases t, 0
  {
    var BinaryExpression(id, _, l, _, r) := t;
    var leftId := CreateId("left", id);
    BinaryStep(t, g, isRoot, scope);
    var wl, wr := Wired(l, false), Wired(r, false);
    assert Wired(t, isRoot) == wl + [leftId] + wr + [CreateId("right", id)];
    DistinctConcat(wl + [leftId] + wr, [CreateId("right", id)]);
    DistinctConcat(wl + [leftId], wr);
    DistinctConcat(wl, [leftId]);
    var g1 := WithNode(g, BinaryNode(t));
    ProcessWiresOnce(l, g1, false, scope);
    ProcessKeys(l, g1, false, scope);
    var cl := Process(l, g1, false, scope).value;
    assert leftId !in cl.graph.edges;
    WireFreshAfter(g.edges, cl.graph.edges, wl, leftId, cl.port);
    var g2 := WithEdge(cl.graph, leftId, cl.port);
    assert FreshKeys(g2.edges, wr) by {
      forall k | k in wr ensures k !in g2.edges {
        assert k in Wired(t, isRoot);
        assert k !in wl + [leftId];
      }
    }
    assert CreateId("right", id) !in g2.edges by {
      assert CreateId("right", id) in Wired(t, isRoot);
      assert CreateId("right", id) !in wl + [leftId] + wr;
    }
  }


  lemma {:induction false} ProcessAllWiresOnce(ts: seq<Tree>, g: Graph, scope: seq<Port>)
    requires ProcessAll(ts, g, scope).Success?
    requires Distinct(WiredAll(ts)) && FreshKeys(g.edges, WiredAll(ts))
    ensures WiresOnce(g.edges, ProcessAll(ts, g, scope).value.edges, WiredAll(ts))
    decreases ts
  {
    if |ts| > 0 {
      DistinctConcat(Wired(ts[0], false), WiredAll(ts[1..]));
      ProcessWiresOnce(ts[0], g, false, scope);
      ProcessKeys(ts[0], g, false, scope);
      var c := Process(ts[0], g, false, scope).value;
      ProcessAllWiresOnce(ts[1..], c.graph, scope);
      WiresOnceTrans(g.edges, c.graph.edges, ProcessAll(ts[1..], c.graph, scope).value.edges, Wired(ts[0], false), WiredAll(ts[1..]));
    }
  }

  // ---------------------------------------------------------------------
  // The graph `parseTree` builds

  /** Compiling a tree with distinct numeric ids from an empty graph (what
      `parseTree` does) emits one node per emitting construct with no id
      repeated, keys the edge map by exactly the inputs it wires, gives each
      of them exactly one producer, and wires only input ports of emitted
      nodes. */
  lemma CompiledGraphWellFormed(t: Tree)
    requires DistinctIds(t)
    requires Process(t, EmptyGraph, true, []).Success?
    ensures var g := Process(t, EmptyGraph, true, []).value.graph;
            && IdList(g.nodes) == Emitted(t, true)
            && Distinct(IdList(g.nodes))
            && g.edges.Keys == Elems(Wired(t, true))
            && (forall k :: k in g.edges ==> |g.edges[k]| == 1)
            && ConsumersAreInputs(g)
  {
    DistinctIdsGiveDistinctPorts(t, true);
    ProcessAppends(t, EmptyGraph, true, []);
    ProcessKeys(t, EmptyGraph, true, []);
    ProcessWiresOnce(t, EmptyGraph, true, []);
  }
}
