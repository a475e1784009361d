/** Where the producers of a compiled graph come from. Over distinct
    numeric ids, every defined producer the compiler wires is the id of a
    port of a node in the table. There is one exception: a whole source
    file used as an operand, whose result is a node id with no node behind
    it. */
module ProcessTreeProducers {
  import opened Wrappers
  import opened PortIds
  import opened SyntaxTree
  import opened ProcessTree
  import opened ProcessTreeProperties

  /** The node has an input or an output with this id. */
  predicate PortOf(n: GraphNode, id: string) {
    (exists j :: 0 <= j < |n.inputs| && n.inputs[j].id == id)
    || (exists j :: 0 <= j < |n.outputs| && n.outputs[j].id == id)
  }

  ghost predicate HasPort(nodes: seq<GraphNode>, id: string) {
    exists i :: 0 <= i < |nodes| && PortOf(nodes[i], id)
  }

  /** Every defined producer in the edge map is a port of the table. */
  ghost predicate ProducersArePorts(g: Graph) {
    forall k, j :: k in g.edges && 0 <= j < |g.edges[k]| && g.edges[k][j].Some? ==> HasPort(g.nodes, g.edges[k][j].value)
  }

  /** Every identifier in scope names a port of the table. */
  ghost predicate ScopeArePorts(nodes: seq<GraphNode>, scope: seq<Port>) {
    forall i :: 0 <= i < |scope| ==> HasPort(nodes, scope[i].id)
  }

  /** No return value and no binary operand is a whole source file. */
  predicate NoSourceOperand(t: Tree)
    decreases t
  {
    match t
    case SourceFile(_, _, sts) => NoSourceOperandAll(sts)
    case FunctionDeclaration(_, _, _, _, body) => NoSourceOperandAll(body)
    case ReturnStatement(_, _, e) => e.Some? ==> !e.value.SourceFile? && NoSourceOperand(e.value)
    case BinaryExpression(_, _, l, _, r) =>
      !l.SourceFile? && !r.SourceFile? && NoSourceOperand(l) && NoSourceOperand(r)
    case _ => true
  }

  predicate NoSourceOperandAll(ts: seq<Tree>)
    decreases ts
  {
    forall i :: 0 <= i < |ts| ==> NoSourceOperand(ts[i])
  }

  // ---------------------------------------------------------------------
  // Ports survive a growing table

  lemma NodePort(nodes: seq<GraphNode>, n: GraphNode, id: string)
    requires n in nodes && PortOf(n, id)
    ensures HasPort(nodes, id)
  {
    var i :| 0 <= i < |nodes| && nodes[i] == n;
  }

  lemma HasPortPrefix(nodes: seq<GraphNode>, nodes': seq<GraphNode>, id: string)
    requires nodes <= nodes' && HasPort(nodes, id)
    ensures HasPort(nodes', id)
  {
    var i :| 0 <= i < |nodes| && PortOf(nodes[i], id);
    assert nodes'[i] == nodes[i];
  }

  lemma ProducersKept(g: Graph, g': Graph)
    requires g.nodes <= g'.nodes && g'.edges == g.edges && ProducersArePorts(g)
    ensures ProducersArePorts(g')
  {
    forall k, j | k in g'.edges && 0 <= j < |g'.edges[k]| && g'.edges[k][j].Some?
      ensures HasPort(g'.nodes, g'.edges[k][j].value)
    {
      HasPortPrefix(g.nodes, g'.nodes, g'.edges[k][j].value);
    }
  }

  lemma ScopeKept(nodes: seq<GraphNode>, nodes': seq<GraphNode>, scope: seq<Port>)
    requires nodes <= nodes' && ScopeArePorts(nodes, scope)
    ensures ScopeArePorts(nodes', scope)
  {
    forall i | 0 <= i < |scope| ensures HasPort(nodes', scope[i].id) {
      HasPortPrefix(nodes, nodes', scope[i].id);
    }
  }

  /** Wiring a producer that is a port keeps every producer a port. */
  lemma WireKeepsProducers(g: Graph, k: string, p: Option<string>)
    requires ProducersArePorts(g) && (p.Some? ==> HasPort(g.nodes, p.value))
    ensures ProducersArePorts(WithEdge(g, k, p))
  {
    var e: Edges := CreateEdge(g.edges, k, p);
    forall k', j | k' in e && 0 <= j < |e[k']| && e[k'][j].Some?
      ensures HasPort(g.nodes, e[k'][j].value)
    {
      if k' != k {
        assert e[k'] == g.edges[k'];
      } else if k in g.edges && j < |g.edges[k]| {
        assert e[k][j] == g.edges[k][j];
      }
    }
  }

  /** The parameters of a root declaration are the outputs of its
      arguments node. */
  lemma ArgumentsArePorts(t: Tree, nodes: seq<GraphNode>, scope: seq<Port>)
    requires t.FunctionDeclaration? && ArgumentsNode(t) in nodes && ScopeArePorts(nodes, scope)
    ensures ScopeArePorts(nodes, scope + ParamPorts(t.parameters))
  {
    var ps := ParamPorts(t.parameters);
    forall i | 0 <= i < |scope + ps| ensures HasPort(nodes, (scope + ps)[i].id) {
      if i >= |scope| {
        assert ArgumentsNode(t).outputs[i - |scope|].id == (scope + ps)[i].id;
        NodePort(nodes, ArgumentsNode(t), (scope + ps)[i].id);
      }
    }
  }

  // ---------------------------------------------------------------------
  // Where a visit leaves the node it emits

  /** Over fresh, distinct ids the left operand is visited over ids still
      fresh, the binary node is stored before it, and the right operand is
      visited over ids still fresh after the left one. */
  lemma BinaryFresh(t: Tree, g: Graph, isRoot: bool, scope: seq<Port>)
    requires t.BinaryExpression? && Process(t, g, isRoot, scope).Success?
    requires Distinct(Emitted(t, isRoot)) && FreshFor(g.nodes, Emitted(t, isRoot))
    ensures var g1 := WithNode(g, BinaryNode(t));
            && BinaryNode(t) in g1.nodes
            && Process(t.left, g1, false, scope).Success?
            && Distinct(Emitted(t.left, false)) && FreshFor(g1.nodes, Emitted(t.left, false))
            && var cl := Process(t.left, g1, false, scope).value;
               var g2 := WithEdge(cl.graph, CreateId("left", t.id), cl.port);
               && g1.nodes <= g2.nodes
               && Process(t.right, g2, false, scope).Success?
               && Distinct(Emitted(t.right, false)) && FreshFor(g2.nodes, Emitted(t.right, false))
  {
    var BinaryExpression(id, _, l, _, r) := t;
    BinaryStep(t, g, isRoot, scope);
    var g1 := WithNode(g, BinaryNode(t));
    PutFresh(g, BinaryNode(t));
    DistinctConcat([NodeId(t)] + Emitted(l, false), Emitted(r, false));
    DistinctConcat([NodeId(t)], Emitted(l, false));
    assert Emitted(t, isRoot) == [NodeId(t)] + Emitted(l, false) + Emitted(r, false);
    assert FreshFor(g1.nodes, Emitted(l, false)) by {
      forall x | x in Emitted(l, false) ensures x !in NodeIds(g1.nodes) {
        assert x in Emitted(t, isRoot);
      }
    }
    ProcessAppends(l, g1, false, scope);
    var cl := Process(l, g1, false, scope).value;
    AppendsToTrans(g, g1, cl.graph, [NodeId(t)], Emitted(l, false));
    var g2 := WithEdge(cl.graph, CreateId("left", id), cl.port);
    assert FreshFor(g2.nodes, Emitted(r, false)) by {
      NodeIdsOfIdList(g.nodes);
      NodeIdsOfIdList(g2.nodes);
      forall x | x in Emitted(r, false) ensures x !in NodeIds(g2.nodes) {
        assert x in Emitted(t, isRoot);
        assert x !in [NodeId(t)] + Emitted(l, false);
        assert x !in IdList(g.nodes);
        assert x !in IdList(g.nodes) + ([NodeId(t)] + Emitted(l, false));
      }
    }
  }

  /** Over fresh, distinct ids the binary node ends up in the table. */
  lemma BinaryNodeStored(t: Tree, g: Graph, isRoot: bool, scope: seq<Port>)
    requires t.BinaryExpression? && Process(t, g, isRoot, scope).Success?
    requires Distinct(Emitted(t, isRoot)) && FreshFor(g.nodes, Emitted(t, isRoot))
    ensures BinaryNode(t) in Process(t, g, isRoot, scope).value.graph.nodes
  {
    BinaryStep(t, g, isRoot, scope);
    BinaryFresh(t, g, isRoot, scope);
    var g1 := WithNode(g, BinaryNode(t));
    var cl := Process(t.left, g1, false, scope).value;
    var g2 := WithEdge(cl.graph, CreateId("left", t.id), cl.port);
    ProcessAppends(t.right, g2, false, scope);
    var nodes := Process(t, g, isRoot, scope).value.graph.nodes;
    assert g1.nodes <= nodes;
    var i :| 0 <= i < |g1.nodes| && g1.nodes[i] == BinaryNode(t);
    assert nodes[i] == BinaryNode(t);
  }

  /** Over fresh, distinct ids the expression of a return is visited over
      ids still fresh, after the return node is stored. */
  lemma ReturnFresh(t: Tree, g: Graph, isRoot: bool, scope: seq<Port>)
    requires t.ReturnStatement? && t.expression.Some?
    requires Distinct(Emitted(t, isRoot)) && FreshFor(g.nodes, Emitted(t, isRoot))
    ensures var g1 := WithNode(g, ReturnNode(t));
            && ReturnNode(t) in g1.nodes
            && Distinct(Emitted(t.expression.value, false)) && FreshFor(g1.nodes, Emitted(t.expression.value, false))
  {
    var g1 := WithNode(g, ReturnNode(t));
    PutFresh(g, ReturnNode(t));
    DistinctConcat([NodeId(t)], Emitted(t.expression.value, false));
    NodeIdsOfIdList(g1.nodes);
  }

  /** Over fresh, distinct ids the return node ends up in the table. */
  lemma ReturnNodeStored(t: Tree, g: Graph, isRoot: bool, scope: seq<Port>)
    requires t.ReturnStatement? && Process(t, g, isRoot, scope).Success?
    requires Distinct(Emitted(t, isRoot)) && FreshFor(g.nodes, Emitted(t, isRoot))
    ensures ReturnNode(t) in Process(t, g, isRoot, scope).value.graph.nodes
  {
    var g1 := WithNode(g, ReturnNode(t));
    if t.expression.Some? {
      ReturnStep(t, g, isRoot, scope);
      ReturnFresh(t, g, isRoot, scope);
      ProcessAppends(t.expression.value, g1, false, scope);
      var nodes := Process(t, g, isRoot, scope).value.graph.nodes;
      var i :| 0 <= i < |g1.nodes| && g1.nodes[i] == ReturnNode(t);
      assert nodes[i] == ReturnNode(t);
    }
  }

  // ---------------------------------------------------------------------
  // Producers are ports

  lemma {:induction false} ProcessProducersArePorts(t: Tree, g: Graph, isRoot: bool, scope: seq<Port>)
    requires Process(t, g, isRoot, scope).Success?
    requires Distinct(Emitted(t, isRoot)) && FreshFor(g.nodes, Emitted(t, isRoot))
    requires NoSourceOperand(t) && ProducersArePorts(g) && ScopeArePorts(g.nodes, scope)
    ensures var c := Process(t, g, isRoot, scope).value;
            && ProducersArePorts(c.graph)
            && (!t.SourceFile? && !(isRoot && t.FunctionDeclaration?) && c.port.Some? ==> HasPort(c.graph.nodes, c.port.value))
    decreases t, 1
  {
    match t
    case SourceFile(_, _, sts) =>
      ProcessAllProducersArePorts(sts, g, scope);
    case Identifier(_, _, _) =>
    case FunctionDeclaration(_, _, _, _, _) =>
      if isRoot {
        ProducersRoot(t, g, scope);
      } else {
        ProducersBox(t, g, scope);
      }
    case ReturnStatement(_, _, _) =>
      ProducersReturn(t, g, isRoot, scope);
    case BinaryExpression(_, _, _, _, _) =>
      ProducersBinary(t, g, isRoot, scope);
    case Other(_, _, _, _) =>
  }

  lemma ProducersBox(t: Tree, g: Graph, scope: seq<Port>)
    requires t.FunctionDeclaration? && t.name.Some? && FreshFor(g.nodes, Emitted(t, false)) && ProducersArePorts(g)
    ensures var g1 := WithNode(g, FunctionBox(t));
            ProducersArePorts(g1) && HasPort(g1.nodes, CreateId("return", t.id))
  {
    var g1 := WithNode(g, FunctionBox(t));
    PutFresh(g, FunctionBox(t));
    ProducersKept(g, g1);
    assert FunctionBox(t).outputs[0].id == CreateId("return", t.id);
    NodePort(g1.nodes, FunctionBox(t), CreateId("return", t.id));
  }

  lemma {:induction false} ProducersRoot(t: Tree, g: Graph, scope: seq<Port>)
    requires t.FunctionDeclaration? && Process(t, g, true, scope).Success?
    requires Distinct(Emitted(t, true)) && FreshFor(g.nodes, Emitted(t, true))
    requires NoSourceOperand(t) && ProducersArePorts(g) && ScopeArePorts(g.nodes, scope)
    ensures ProducersArePorts(Process(t, g, true, scope).value.graph)
    decreases t, 0
  {
    var g1 := WithNode(g, ArgumentsNode(t));
    RootStep(t, g, scope);
    PutFresh(g, ArgumentsNode(t));
    DistinctConcat([NodeId(t)], EmittedAll(t.body));
    NodeIdsOfIdList(g1.nodes);
    ProducersKept(g, g1);
    ScopeKept(g.nodes, g1.nodes, scope);
    ArgumentsArePorts(t, g1.nodes, scope);
    ProcessAllProducersArePorts(t.body, g1, scope + ParamPorts(t.parameters));
  }

  lemma {:induction false} ProducersReturn(t: Tree, g: Graph, isRoot: bool, scope: seq<Port>)
    requires t.ReturnStatement? && Process(t, g, isRoot, scope).Success?
    requires Distinct(Emitted(t, isRoot)) && FreshFor(g.nodes, Emitted(t, isRoot))
    requires NoSourceOperand(t) && ProducersArePorts(g) && ScopeArePorts(g.nodes, scope)
    ensures var c := Process(t, g, isRoot, scope).value;
            ProducersArePorts(c.graph) && HasPort(c.graph.nodes, CreateId("return", t.id))
    decreases t, 0
  {
    var g1 := WithNode(g, ReturnNode(t));
    PutFresh(g, ReturnNode(t));
    ProducersKept(g, g1);
    ReturnNodeStored(t, g, isRoot, scope);
    assert ReturnNode(t).inputs[0].id == CreateId("return", t.id);
    NodePort(Process(t, g, isRoot, scope).value.graph.nodes, ReturnNode(t), CreateId("return", t.id));
    if t.expression.Some? {
      var e := t.expression.value;
      ReturnStep(t, g, isRoot, scope);
      ReturnFresh(t, g, isRoot, scope);
      ScopeKept(g.nodes, g1.nodes, scope);
      ProcessProducersArePorts(e, g1, false, scope);
      var c := Process(e, g1, false, scope).value;
      WireKeepsProducers(c.graph, CreateId("return", t.id), c.port);
    }
  }

  lemma {:induction false} ProducersBinary(t: Tree, g: Graph, isRoot: bool, scope: seq<Port>)
    requires t.BinaryExpression? && Process(t, g, isRoot, scope).Success?
    requires Distinct(Emitted(t, isRoot)) && FreshFor(g.nodes, Emitted(t, isRoot))
    requires NoSourceOperand(t) && ProducersArePorts(g) && ScopeArePorts(g.nodes, scope)
    ensures var c := Process(t, g, isRoot, scope).value;
            ProducersArePorts(c.graph) && HasPort(c.graph.nodes, CreateId("return", t.id))
    decreases t, 0
  {
    BinaryStep(t, g, isRoot, scope);
    BinaryFresh(t, g, isRoot, scope);
    BinaryNodeStored(t, g, isRoot, scope);
    assert BinaryNode(t).outputs[0].id == CreateId("return", t.id);
    NodePort(Process(t, g, isRoot, scope).value.graph.nodes, BinaryNode(t), CreateId("return", t.id));
    var g1 := WithNode(g, BinaryNode(t));
    PutFresh(g, BinaryNode(t));
    ProducersKept(g, g1);
    ScopeKept(g.nodes, g1.nodes, scope);
    ProcessProducersArePorts(t.left, g1, false, scope);
    var cl := Process(t.left, g1, false, scope).value;
    WireKeepsProducers(cl.graph, CreateId("left", t.id), cl.port);
    var g2 := WithEdge(cl.graph, CreateId("left", t.id), cl.port);
    ScopeKept(g1.nodes, g2.nodes, scope);
    ProcessProducersArePorts(t.right, g2, false, scope);
    var cr := Process(t.right, g2, false, scope).value;
    WireKeepsProducers(cr.graph, CreateId("right", t.id), cr.port);
  }

  lemma {:induction false} ProcessAllProducersArePorts(ts: seq<Tree>, g: Graph, scope: seq<Port>)
    requires ProcessAll(ts, g, scope).Success?
    requires Distinct(EmittedAll(ts)) && FreshFor(g.nodes, EmittedAll(ts))
    requires NoSourceOperandAll(ts) && ProducersArePorts(g) && ScopeArePorts(g.nodes, scope)
    ensures ProducersArePorts(ProcessAll(ts, g, scope).value)
    decreases ts
  {
    if |ts| > 0 {
      var c := Process(ts[0], g, false, scope).value;
      assert EmittedAll(ts) == Emitted(ts[0], false) + EmittedAll(ts[1..]);
      DistinctConcat(Emitted(ts[0], false), EmittedAll(ts[1..]));
      assert FreshFor(g.nodes, Emitted(ts[0], false)) by {
        forall x | x in Emitted(ts[0], false) ensures x !in NodeIds(g.nodes) {
          assert x in EmittedAll(ts);
        }
      }
      ProcessProducersArePorts(ts[0], g, false, scope);
      ProcessAppends(ts[0], g, false, scope);
      ScopeKept(g.nodes, c.graph.nodes, scope);
      assert FreshFor(c.graph.nodes, EmittedAll(ts[1..])) by {
        NodeIdsOfIdList(g.nodes);
        NodeIdsOfIdList(c.graph.nodes);
        forall x | x in EmittedAll(ts[1..]) ensures x !in NodeIds(c.graph.nodes) {
          assert x in EmittedAll(ts);
          assert x !in IdList(g.nodes) + Emitted(ts[0], false);
        }
      }
      assert NoSourceOperandAll(ts[1..]) by {
        forall i | 0 <= i < |ts[1..]| ensures NoSourceOperand(ts[1..][i]) {
          assert ts[1..][i] == ts[i + 1];
        }
      }
      ProcessAllProducersArePorts(ts[1..], c.graph, scope);
    }
  }

  /** A program whose operands are never whole files, compiled from an
      empty graph: every defined producer of every edge is the id of a port
      of a node in the table. */
  lemma CompiledProducersArePorts(t: Tree)
    requires DistinctIds(t) && NoSourceOperand(t)
    requires Process(t, EmptyGraph, true, []).Success?
    ensures ProducersArePorts(Process(t, EmptyGraph, true, []).value.graph)
  {
    DistinctIdsGiveDistinctPorts(t, true);
    ProcessProducersArePorts(t, EmptyGraph, true, []);
  }
}
