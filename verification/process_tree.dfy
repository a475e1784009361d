/** The tree-to-graph compiler `processTree`: a recursive descent that emits
    one graph node per handled construct and returns the port id standing
    for the value the visited subtree produces.

    The source mutates a `nodes` object, an `edges` object and an
    `identifiers` array in place; here the node table and the edge map are
    threaded through as an immutable `Graph`. The scope is a plain
    parameter: only the root `FunctionDeclaration` pushes onto it, and every
    recursive call is a non-root one, so no push is ever visible to a
    caller. */
module ProcessTree {
  import opened Wrappers
  import opened PortIds
  import opened SyntaxTree

  /** An input or output attachment point; scope entries are ports too.
      `text` is the source's `label` (a reserved word here). */
  datatype Port = Port(id: string, cursor: int, text: string)

  /** A compiled node. A field the source leaves unset (`inputs` of the
      arguments node, `outputs` of a return node) is the empty list, which is
      what every reader of the node defaults it to. */
  datatype GraphNode = GraphNode(
    id: string, cursor: int, text: string, nodeType: string,
    inputs: seq<Port>, outputs: seq<Port>)

  /** Consumer (input) port id to the producer port ids wired into it, in
      the order they were added. A producer is `None` where the source
      pushes `undefined`: the result of a kind outside the switch. */
  type Edges = map<string, seq<Option<string>>>

  /** `nodes` is the node object in insertion order, the order
      `Object.values` enumerates keys of the form `Kind_n`. */
  datatype Graph = Graph(nodes: seq<GraphNode>, edges: Edges)

  datatype Compiled = Compiled(graph: Graph, port: Option<string>)

  const EmptyGraph := Graph([], map[])

  function NodeIds(nodes: seq<GraphNode>): set<string> {
    set i | 0 <= i < |nodes| :: nodes[i].id
  }

  function IdList(nodes: seq<GraphNode>): (r: seq<string>)
    ensures |r| == |nodes| && forall i :: 0 <= i < |nodes| ==> r[i] == nodes[i].id
  {
    if |nodes| == 0 then [] else [nodes[0].id] + IdList(nodes[1..])
  }

  /** Index of the entry stored under `id`, if there is one. */
  function IndexOfId(nodes: seq<GraphNode>, id: string): (r: Option<nat>)
    ensures r.Some? ==> r.value < |nodes| && nodes[r.value].id == id
    ensures r.None? ==> id !in NodeIds(nodes)
  {
    if |nodes| == 0 then None
    else if nodes[0].id == id then Some(0)
    else match IndexOfId(nodes[1..], id)
      case None => None
      case Some(i) => Some(i + 1)
  }

  /** `nodes[node.id] = node` on a JavaScript object: an existing key keeps
      its place and gets the new value, a new key goes last. */
  function Put(nodes: seq<GraphNode>, node: GraphNode): (r: seq<GraphNode>)
    ensures node.id !in NodeIds(nodes) ==> r == nodes + [node]
    ensures node.id in NodeIds(nodes) ==> |r| == |nodes|
    ensures NodeIds(r) == NodeIds(nodes) + {node.id}
    ensures node in r
    ensures forall n :: n in r ==> n in nodes || n == node
    ensures forall i :: 0 <= i < |nodes| && nodes[i].id != node.id ==> r[i] == nodes[i]
  {
    match IndexOfId(nodes, node.id)
    case None =>
      var r := nodes + [node];
      assert r[|nodes|] == node;
      assert NodeIds(r) == NodeIds(nodes) + {node.id} by {
        forall x | x in NodeIds(nodes) ensures x in NodeIds(r) {
          var j :| 0 <= j < |nodes| && nodes[j].id == x;
          assert r[j].id == x;
        }
      }
      r
    case Some(i) =>
      var r := nodes[i := node];
      assert r[i] == node;
      assert NodeIds(r) == NodeIds(nodes) by {
        forall x | x in NodeIds(nodes) ensures x in NodeIds(r) {
          var j :| 0 <= j < |nodes| && nodes[j].id == x;
          assert r[j].id == x;
        }
      }
      r
  }

  /** `createEdge`: appends the producer to the consumer's list, creating the
      list when the consumer has none yet. */
  function CreateEdge(edges: Edges, inId: string, outId: Option<string>): (r: Edges)
    ensures r.Keys == edges.Keys + {inId}
    ensures inId in edges ==> r[inId] == edges[inId] + [outId]
    ensures inId !in edges ==> r[inId] == [outId]
    ensures forall k :: k in edges && k != inId ==> r[k] == edges[k]
  {
    edges[inId := (if inId in edges then edges[inId] else []) + [outId]]
  }

  /** `findRight`: the index of the last scope entry whose label is `text`. */
  function FindRight(scope: seq<Port>, text: string): (r: Option<nat>)
    ensures r.Some? ==> r.value < |scope| && scope[r.value].text == text
    ensures r.Some? ==> forall j :: r.value < j < |scope| ==> scope[j].text != text
    ensures r.None? <==> forall j :: 0 <= j < |scope| ==> scope[j].text != text
    decreases |scope|
  {
    if |scope| == 0 then None
    else if scope[|scope| - 1].text == text then Some(|scope| - 1)
    else FindRight(scope[..|scope| - 1], text)
  }

  /** The port a parameter becomes: id `name_paramId`, labelled by its name. */
  function ParamPort(p: Param): Port {
    Port(CreateId(p.name, p.id), p.pos, p.name)
  }

  function ParamPorts(ps: seq<Param>): (r: seq<Port>)
    ensures |r| == |ps| && forall i :: 0 <= i < |ps| ==> r[i] == ParamPort(ps[i])
  {
    if |ps| == 0 then [] else [ParamPort(ps[0])] + ParamPorts(ps[1..])
  }

  /** The id of the node a construct emits: `createId(kind, id)`. */
  function NodeId(t: Tree): string {
    CreateId(KindName(t), t.id)
  }

  /** The node a root `FunctionDeclaration` emits: labelled `arguments`, no
      inputs, one output per parameter in parameter order. */
  function ArgumentsNode(t: Tree): GraphNode
    requires t.FunctionDeclaration?
  {
    GraphNode(NodeId(t), t.pos, "arguments", "FunctionDeclarationArguments", [], ParamPorts(t.parameters))
  }

  /** The single box a non-root `FunctionDeclaration` emits: one input per
      parameter and the output `return_<id>`. */
  function FunctionBox(t: Tree): GraphNode
    requires t.FunctionDeclaration? && t.name.Some?
  {
    GraphNode(NodeId(t), t.pos, t.name.value, "FunctionDeclaration",
              ParamPorts(t.parameters), [Port(CreateId("return", t.id), t.pos, "return")])
  }

  function ReturnNode(t: Tree): GraphNode
    requires t.ReturnStatement?
  {
    GraphNode(NodeId(t), t.pos, "return", "ReturnStatement", [Port(CreateId("return", t.id), t.pos, "return")], [])
  }

  /** Labelled with the operator's kind; inputs `left_<id>`, `right_<id>`
      carry the operands' positions, output `return_<id>`. */
  function BinaryNode(t: Tree): GraphNode
    requires t.BinaryExpression?
  {
    GraphNode(NodeId(t), t.pos, t.operatorKind, "BinaryExpression",
              [Port(CreateId("left", t.id), t.left.pos, "left"), Port(CreateId("right", t.id), t.right.pos, "right")],
              [Port(CreateId("return", t.id), t.pos, "output")])
  }

  function WithNode(g: Graph, node: GraphNode): Graph {
    Graph(Put(g.nodes, node), g.edges)
  }

  function WithEdge(g: Graph, inId: string, outId: Option<string>): Graph {
    Graph(g.nodes, CreateEdge(g.edges, inId, outId))
  }

  /** What reading `name.escapedText` throws when a nested function has no
      name. */
  const NamelessError: string := "TypeError: cannot read properties of undefined (reading 'escapedText')"

  /** `processTree(tree, nodes, edges, isRoot, identifiers)`. */
  function Process(t: Tree, g: Graph, isRoot: bool, scope: seq<Port>): Result<Compiled>
    decreases t
  {
    match t
    case SourceFile(_, _, sts) =>
      var g' :- ProcessAll(sts, g, scope);
      Success(Compiled(g', Some(NodeId(t))))
    case Identifier(_, _, text) =>
      var found := FindRight(scope, text);
      if found.None? then Failure("Identifier not found: " + text)
      else Success(Compiled(g, Some(scope[found.value].id)))
    case FunctionDeclaration(id, _, name, ps, body) =>
      if isRoot then
        var g' :- ProcessAll(body, WithNode(g, ArgumentsNode(t)), scope + ParamPorts(ps));
        Success(Compiled(g', Some(NodeId(t))))
      else if name.None? then Failure(NamelessError)
      else
        Success(Compiled(WithNode(g, FunctionBox(t)), Some(CreateId("return", id))))
    case ReturnStatement(id, _, e) =>
      var g1 := WithNode(g, ReturnNode(t));
      if e.None? then Success(Compiled(g1, Some(CreateId("return", id))))
      else
        var c :- Process(e.value, g1, false, scope);
        Success(Compiled(WithEdge(c.graph, CreateId("return", id), c.port), Some(CreateId("return", id))))
    case BinaryExpression(id, _, l, _, r) =>
      var cl :- Process(l, WithNode(g, BinaryNode(t)), false, scope);
      var cr :- Process(r, WithEdge(cl.graph, CreateId("left", id), cl.port), false, scope);
      Success(Compiled(WithEdge(cr.graph, CreateId("right", id), cr.port), Some(CreateId("return", id))))
    case Other(_, _, _, _) =>
      Success(Compiled(g, None))
  }

  /** `statements.forEach(child => processTree(child, nodes, edges, false, identifiers))`. */
  function ProcessAll(ts: seq<Tree>, g: Graph, scope: seq<Port>): Result<Graph>
    decreases ts
  {
    if |ts| == 0 then Success(g)
    else
      var c :- Process(ts[0], g, false, scope);
      ProcessAll(ts[1..], c.graph, scope)
  }
}
