/** What `processTree` does in each case of its switch, stated over the
    result port and the graph it returns. */
module ProcessTreeCases {
  import opened Wrappers
  import opened PortIds
  import opened SyntaxTree
  import opened ProcessTree
  import opened ProcessTreeProperties
  import opened ProcessTreeProducers

  /** The port a visit returns, read off the construct alone: it never
      depends on what the children emit. */
  function ResultPort(t: Tree, isRoot: bool, scope: seq<Port>): Option<string> {
    match t
    case SourceFile(_, _, _) => Some(NodeId(t))
    case Identifier(_, _, text) =>
      var found := FindRight(scope, text);
      if found.Some? then Some(scope[found.value].id) else None
    case FunctionDeclaration(id, _, _, _, _) => if isRoot then Some(NodeId(t)) else Some(CreateId("return", id))
    case ReturnStatement(id, _, _) => Some(CreateId("return", id))
    case BinaryExpression(id, _, _, _, _) => Some(CreateId("return", id))
    case Other(_, _, _, _) => None
  }

  lemma ProcessReturnsResultPort(t: Tree, g: Graph, isRoot: bool, scope: seq<Port>)
    requires Process(t, g, isRoot, scope).Success?
    ensures Process(t, g, isRoot, scope).value.port == ResultPort(t, isRoot, scope)
  {
    match t
    case BinaryExpression(_, _, _, _, _) => BinaryStep(t, g, isRoot, scope);
    case ReturnStatement(_, _, e) => if e.Some? { ReturnStep(t, g, isRoot, scope); }
    case _ =>
  }

  /** An identifier resolves to the port of the last-pushed scope entry with
      its name, leaving the graph alone; with no such entry the compiler
      throws `Identifier not found`. */
  lemma IdentifierCase(t: Tree, g: Graph, isRoot: bool, scope: seq<Port>)
    requires t.Identifier?
    ensures Process(t, g, isRoot, scope).Success? <==> Bound(scope, t.escapedText)
    ensures !Bound(scope, t.escapedText) ==>
              Process(t, g, isRoot, scope) == Failure("Identifier not found: " + t.escapedText)
    ensures Process(t, g, isRoot, scope).Success? ==>
              exists i :: && 0 <= i < |scope| && scope[i].text == t.escapedText
                          && (forall j :: i < j < |scope| ==> scope[j].text != t.escapedText)
                          && Process(t, g, isRoot, scope).value == Compiled(g, Some(scope[i].id))
  {
    ProcessSucceedsIffResolves(t, g, isRoot, scope);
    var found := FindRight(scope, t.escapedText);
    if found.Some? {
      assert Process(t, g, isRoot, scope).value == Compiled(g, Some(scope[found.value].id));
    }
  }

  /** Types of the nodes a non-root visit can add. */
  const NonRootTypes: set<string> := {"FunctionDeclaration", "ReturnStatement", "BinaryExpression"}

  /** Every node of `g'` was already in `g` or has one of `types`. */
  ghost predicate OnlyAdds(g: Graph, g': Graph, types: set<string>) {
    forall n :: n in g'.nodes ==> n in g.nodes || n.nodeType in types
  }

  lemma {:induction false} NonRootAddsNoArguments(t: Tree, g: Graph, scope: seq<Port>)
    requires Process(t, g, false, scope).Success?
    ensures OnlyAdds(g, Process(t, g, false, scope).value.graph, NonRootTypes)
    decreases t
  {
    match t
    case SourceFile(_, _, sts) => NonRootAllAddsNoArguments(sts, g, scope);
    case Identifier(_, _, _) =>
    case FunctionDeclaration(_, _, _, _, _) =>
    case ReturnStatement(_, _, e) =>
      if e.Some? {
        ReturnStep(t, g, false, scope);
        NonRootAddsNoArguments(e.value, WithNode(g, ReturnNode(t)), scope);
      }
    case BinaryExpression(id, _, l, _, r) =>
      BinaryStep(t, g, false, scope);
      var g1 := WithNode(g, BinaryNode(t));
      NonRootAddsNoArguments(l, g1, scope);
      var cl := Process(l, g1, false, scope).value;
      NonRootAddsNoArguments(r, WithEdge(cl.graph, CreateId("left", id), cl.port), scope);
    case Other(_, _, _, _) =>
  }

  lemma {:induction false} NonRootAllAddsNoArguments(ts: seq<Tree>, g: Graph, scope: seq<Port>)
    requires ProcessAll(ts, g, scope).Success?
    ensures OnlyAdds(g, ProcessAll(ts, g, scope).value, NonRootTypes)
    decreases ts
  {
    if |ts| > 0 {
      NonRootAddsNoArguments(ts[0], g, scope);
      NonRootAllAddsNoArguments(ts[1..], Process(ts[0], g, false, scope).value.graph, scope);
    }
  }

  /** The arguments node of a root function, put into an empty graph, stays
      first: the body's nodes are all appended after it. */
  lemma RootArgumentsFirst(t: Tree, scope: seq<Port>)
    requires t.FunctionDeclaration? && DistinctIds(t)
    requires Process(t, EmptyGraph, true, scope).Success?
    ensures var nodes := Process(t, EmptyGraph, true, scope).value.graph.nodes;
            |nodes| >= 1 && nodes[0] == ArgumentsNode(t) && Distinct(IdList(nodes))
  {
    var g1 := WithNode(EmptyGraph, ArgumentsNode(t));
    var scope' := scope + ParamPorts(t.parameters);
    RootStep(t, EmptyGraph, scope);
    assert g1.nodes == [ArgumentsNode(t)];
    DistinctIdsGiveDistinctPorts(t, true);
    assert Distinct(EmittedAll(t.body)) && FreshFor(g1.nodes, EmittedAll(t.body)) by {
      DistinctConcat([NodeId(t)], EmittedAll(t.body));
      NodeIdsOfIdList(g1.nodes);
    }
    ProcessAllAppends(t.body, g1, scope');
    assert Distinct(IdList(ProcessAll(t.body, g1, scope').value.nodes)) by {
      ProcessAppends(t, EmptyGraph, true, scope);
    }
  }

  /** A root function declaration, compiled from an empty graph, emits its
      `arguments` node first: no inputs, one output `name_paramId` per
      parameter in parameter order. No other node is an arguments node, and
      the visit returns the node's own id. */
  lemma RootFunctionDeclaration(t: Tree, scope: seq<Port>)
    requires t.FunctionDeclaration? && DistinctIds(t)
    requires Process(t, EmptyGraph, true, scope).Success?
    ensures var c := Process(t, EmptyGraph, true, scope).value;
            && c.port == Some(CreateId("FunctionDeclaration", t.id))
            && |c.graph.nodes| >= 1
            && c.graph.nodes[0].text == "arguments"
            && c.graph.nodes[0].nodeType == "FunctionDeclarationArguments"
            && c.graph.nodes[0].inputs == []
            && |c.graph.nodes[0].outputs| == |t.parameters|
            && (forall i :: 0 <= i < |t.parameters| ==>
                  && c.graph.nodes[0].outputs[i].id == CreateId(t.parameters[i].name, t.parameters[i].id)
                  && c.graph.nodes[0].outputs[i].text == t.parameters[i].name)
            && (forall i :: 1 <= i < |c.graph.nodes| ==> c.graph.nodes[i].nodeType != "FunctionDeclarationArguments")
  {
    RootArgumentsFirst(t, scope);
    RootArgumentsUnique(t, scope);
  }

  lemma RootArgumentsUnique(t: Tree, scope: seq<Port>)
    requires t.FunctionDeclaration? && DistinctIds(t)
    requires Process(t, EmptyGraph, true, scope).Success?
    ensures var nodes := Process(t, EmptyGraph, true, scope).value.graph.nodes;
            forall i :: 1 <= i < |nodes| ==> nodes[i].nodeType != "FunctionDeclarationArguments"
  {
    var nodes := Process(t, EmptyGraph, true, scope).value.graph.nodes;
    var g1 := WithNode(EmptyGraph, ArgumentsNode(t));
    assert g1.nodes == [ArgumentsNode(t)];
    RootArgumentsFirst(t, scope);
    NonRootAllAddsNoArguments(t.body, g1, scope + ParamPorts(t.parameters));
    assert nodes == ProcessAll(t.body, g1, scope + ParamPorts(t.parameters)).value.nodes;
    OnlyFirstIsArguments(g1, ProcessAll(t.body, g1, scope + ParamPorts(t.parameters)).value);
  }

  /** With distinct ids, a node list that starts with the one node of `g1`
      and otherwise adds only non-root types holds no second arguments node. */
  lemma OnlyFirstIsArguments(g1: Graph, g: Graph)
    requires |g1.nodes| == 1 && |g.nodes| >= 1 && g.nodes[0] == g1.nodes[0] && Distinct(IdList(g.nodes))
    requires OnlyAdds(g1, g, NonRootTypes)
    ensures forall i :: 1 <= i < |g.nodes| ==> g.nodes[i].nodeType != "FunctionDeclarationArguments"
  {
    var nodes := g.nodes;
    assert "FunctionDeclarationArguments" !in NonRootTypes;
    forall i | 1 <= i < |nodes|
      ensures nodes[i].nodeType != "FunctionDeclarationArguments"
    {
      assert nodes[i] in nodes;
      assert IdList(nodes)[0] != IdList(nodes)[i];
      assert nodes[i] !in g1.nodes by {
        assert g1.nodes == [nodes[0]];
      }
      assert nodes[i].nodeType in NonRootTypes;
    }
  }

  /** The parameters are pushed before the body is visited: a root function
      compiles exactly when every identifier its body visits is bound in
      the scope extended by the parameter ports. */
  lemma RootFunctionBodySeesParameters(t: Tree, g: Graph, scope: seq<Port>)
    requires t.FunctionDeclaration?
    ensures Process(t, g, true, scope).Success? <==> ResolvesAll(t.body, scope + ParamPorts(t.parameters))
  {
    ProcessSucceedsIffResolves(t, g, true, scope);
  }

  /** A nested function declaration is one box with an input per parameter
      and the single output `return_<id>`; it throws only when it has no
      name to label the box with, adds no edge, and its body is not
      visited. */
  lemma NonRootFunctionDeclaration(t: Tree, g: Graph, scope: seq<Port>, otherBody: seq<Tree>)
    requires t.FunctionDeclaration?
    ensures Process(t, g, false, scope).Success? <==> t.name.Some?
    ensures t.name.None? ==> Process(t, g, false, scope) == Failure(NamelessError)
    ensures t.name.Some? ==>
            var c := Process(t, g, false, scope).value;
            && c.port == Some(CreateId("return", t.id))
            && c.graph.edges == g.edges
            && NodeIds(c.graph.nodes) == NodeIds(g.nodes) + {NodeId(t)}
            && FunctionBox(t) in c.graph.nodes
            && FunctionBox(t).text == t.name.value
            && FunctionBox(t).inputs == ParamPorts(t.parameters)
            && FunctionBox(t).outputs == [Port(CreateId("return", t.id), t.pos, "return")]
    ensures Process(t.(body := otherBody), g, false, scope) == Process(t, g, false, scope)
  {
  }

  /** A binary expression's node carries the operator kind and the ports
      `left_<id>`, `right_<id>`, `return_<id>`; the left operand's result is
      wired into `left_<id>`, the right operand's result is the last producer
      of `right_<id>`, and the visit returns `return_<id>`. */
  lemma BinaryExpressionCase(t: Tree, g: Graph, isRoot: bool, scope: seq<Port>)
    requires t.BinaryExpression?
    requires Process(t, g, isRoot, scope).Success?
    ensures var c := Process(t, g, isRoot, scope).value;
            var leftId, rightId := CreateId("left", t.id), CreateId("right", t.id);
            && c.port == Some(CreateId("return", t.id))
            && NodeId(t) in NodeIds(c.graph.nodes)
            && BinaryNode(t).text == t.operatorKind
            && [BinaryNode(t).inputs[0].id, BinaryNode(t).inputs[1].id] == [leftId, rightId]
            && BinaryNode(t).outputs == [Port(CreateId("return", t.id), t.pos, "output")]
            && leftId in c.graph.edges && ResultPort(t.left, false, scope) in c.graph.edges[leftId]
            && rightId in c.graph.edges && |c.graph.edges[rightId]| > 0
            && c.graph.edges[rightId][|c.graph.edges[rightId]| - 1] == ResultPort(t.right, false, scope)
  {
    ProcessReturnsResultPort(t, g, isRoot, scope);
    ProcessKeys(t, g, isRoot, scope);
    assert NodeId(t) in Elems(Emitted(t, isRoot));
    BinaryProducers(t, g, isRoot, scope);
  }

  /** The left operand's result stays among the left input's producers and
      the right operand's result is the last producer of the right input. */
  lemma BinaryProducers(t: Tree, g: Graph, isRoot: bool, scope: seq<Port>)
    requires t.BinaryExpression?
    requires Process(t, g, isRoot, scope).Success?
    ensures var edges := Process(t, g, isRoot, scope).value.graph.edges;
            var leftId, rightId := CreateId("left", t.id), CreateId("right", t.id);
            && leftId in edges && ResultPort(t.left, false, scope) in edges[leftId]
            && rightId in edges && |edges[rightId]| > 0
            && edges[rightId][|edges[rightId]| - 1] == ResultPort(t.right, false, scope)
  {
    var leftId, rightId := CreateId("left", t.id), CreateId("right", t.id);
    BinaryStep(t, g, isRoot, scope);
    var g1 := WithNode(g, BinaryNode(t));
    var cl := Process(t.left, g1, false, scope).value;
    ProcessReturnsResultPort(t.left, g1, false, scope);
    var g2 := WithEdge(cl.graph, leftId, cl.port);
    var cr := Process(t.right, g2, false, scope).value;
    ProcessReturnsResultPort(t.right, g2, false, scope);
    ProcessExtendsEdges(t.right, g2, false, scope);
    CreateEdgeExtends(cr.graph.edges, rightId, cr.port);
    ExtendsTrans(g2.edges, cr.graph.edges, CreateEdge(cr.graph.edges, rightId, cr.port));
    var final := CreateEdge(cr.graph.edges, rightId, cr.port);
    assert g2.edges[leftId][|g2.edges[leftId]| - 1] == cl.port;
    assert g2.edges[leftId] <= final[leftId];
    assert final[leftId][|g2.edges[leftId]| - 1] == cl.port;
  }

  /** Over fresh edge keys each operand input gets exactly one producer:
      its operand's result. */
  lemma BinaryWiredOnce(t: Tree, g: Graph, isRoot: bool, scope: seq<Port>)
    requires t.BinaryExpression?
    requires Process(t, g, isRoot, scope).Success?
    requires Distinct(Wired(t, isRoot)) && FreshKeys(g.edges, Wired(t, isRoot))
    ensures var edges := Process(t, g, isRoot, scope).value.graph.edges;
            var leftId, rightId := CreateId("left", t.id), CreateId("right", t.id);
            && leftId in edges && edges[leftId] == [ResultPort(t.left, false, scope)]
            && rightId in edges && edges[rightId] == [ResultPort(t.right, false, scope)]
  {
    var leftId, rightId := CreateId("left", t.id), CreateId("right", t.id);
    var edges := Process(t, g, isRoot, scope).value.graph.edges;
    BinaryProducers(t, g, isRoot, scope);
    ProcessWiresOnce(t, g, isRoot, scope);
    assert leftId in Wired(t, isRoot) && rightId in Wired(t, isRoot);
    OnlyProducer(edges, leftId, ResultPort(t.left, false, scope));
    OnlyProducer(edges, rightId, ResultPort(t.right, false, scope));
  }

  lemma OnlyProducer(edges: Edges, k: string, p: Option<string>)
    requires k in edges && |edges[k]| == 1
    requires p in edges[k] || edges[k][|edges[k]| - 1] == p
    ensures edges[k] == [p]
  {
    assert edges[k][0] == p;
  }


  /** A return statement emits a node whose single input is `return_<id>`;
      it wires the expression's result into that input only when there is
      an expression, and returns `return_<id>`. */
  lemma ReturnStatementCase(t: Tree, g: Graph, isRoot: bool, scope: seq<Port>)
    requires t.ReturnStatement?
    requires Process(t, g, isRoot, scope).Success?
    ensures var c := Process(t, g, isRoot, scope).value;
            var returnId := CreateId("return", t.id);
            && c.port == Some(returnId)
            && NodeId(t) in NodeIds(c.graph.nodes)
            && ReturnNode(t).inputs == [Port(returnId, t.pos, "return")] && ReturnNode(t).outputs == []
            && (t.expression.None? ==> c.graph.edges == g.edges)
            && (t.expression.Some? ==>
                  returnId in c.graph.edges && |c.graph.edges[returnId]| > 0
                  && c.graph.edges[returnId][|c.graph.edges[returnId]| - 1] == ResultPort(t.expression.value, false, scope))
  {
    ProcessReturnsResultPort(t, g, isRoot, scope);
    ProcessKeys(t, g, isRoot, scope);
    assert NodeId(t) in Elems(Emitted(t, isRoot));
    if t.expression.Some? {
      ReturnProducer(t, g, isRoot, scope);
    }
  }

  /** The expression's result is the last producer of the return input. */
  lemma ReturnProducer(t: Tree, g: Graph, isRoot: bool, scope: seq<Port>)
    requires t.ReturnStatement? && t.expression.Some?
    requires Process(t, g, isRoot, scope).Success?
    ensures var edges := Process(t, g, isRoot, scope).value.graph.edges;
            var returnId := CreateId("return", t.id);
            returnId in edges && |edges[returnId]| > 0
            && edges[returnId][|edges[returnId]| - 1] == ResultPort(t.expression.value, false, scope)
  {
    var g1 := WithNode(g, ReturnNode(t));
    ReturnStep(t, g, isRoot, scope);
    ProcessReturnsResultPort(t.expression.value, g1, false, scope);
    var c := Process(t.expression.value, g1, false, scope).value;
    assert Process(t, g, isRoot, scope).value.graph.edges == CreateEdge(c.graph.edges, CreateId("return", t.id), c.port);
  }

  /** Over fresh edge keys the return input gets exactly one producer. */
  lemma ReturnWiredOnce(t: Tree, g: Graph, isRoot: bool, scope: seq<Port>)
    requires t.ReturnStatement? && t.expression.Some?
    requires Process(t, g, isRoot, scope).Success?
    requires Distinct(Wired(t, isRoot)) && FreshKeys(g.edges, Wired(t, isRoot))
    ensures var edges := Process(t, g, isRoot, scope).value.graph.edges;
            var returnId := CreateId("return", t.id);
            returnId in edges && edges[returnId] == [ResultPort(t.expression.value, false, scope)]
  {
    var returnId := CreateId("return", t.id);
    ReturnProducer(t, g, isRoot, scope);
    ProcessWiresOnce(t, g, isRoot, scope);
    assert returnId in Wired(t, isRoot);
    OnlyProducer(Process(t, g, isRoot, scope).value.graph.edges, returnId, ResultPort(t.expression.value, false, scope));
  }

  /** A source file visits every statement as a non-root construct (so a
      top-level function becomes its single box) and returns its own
      composite id. */
  lemma SourceFileCase(t: Tree, g: Graph, isRoot: bool, scope: seq<Port>)
    requires t.SourceFile?
    ensures Process(t, g, isRoot, scope).Success? <==> ResolvesAll(t.statements, scope)
    ensures Process(t, g, isRoot, scope).Success? ==>
              && Process(t, g, isRoot, scope).value.port == Some(CreateId("SourceFile", t.id))
              && NodeIds(Process(t, g, isRoot, scope).value.graph.nodes) == NodeIds(g.nodes) + Elems(EmittedAll(t.statements))
    ensures forall i :: 0 <= i < |t.statements| && t.statements[i].FunctionDeclaration? ==>
              Emitted(t.statements[i], false) == [NodeId(t.statements[i])]
  {
    ProcessSucceedsIffResolves(t, g, isRoot, scope);
    if Process(t, g, isRoot, scope).Success? {
      ProcessKeys(t, g, isRoot, scope);
    }
  }

  /** A kind outside the switch emits nothing and returns no port. */
  lemma OtherKindCase(t: Tree, g: Graph, isRoot: bool, scope: seq<Port>)
    requires t.Other? && t.kind !in SwitchKinds
    ensures Process(t, g, isRoot, scope) == Success(Compiled(g, None))
  {
  }
}
