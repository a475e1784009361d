/** The graph canvas's state and event logic, without the drawing calls:
    loading a tree, drilling into a function, the back button, and the
    click hit-test that chooses between them. */
module GraphCanvas {
  import opened Wrappers
  import opened SyntaxTree
  import opened ProcessTree
  import opened ProcessTreeProperties
  import opened ProcessTreeProducers
  import opened Navigation
  import opened CanvasGeometry

  /** `state`: the loaded tree, the drill-down history, and the compiled
      graph currently on screen. */
  datatype CanvasState = CanvasState(
    globalTree: Option<Tree>,
    hierarchy: seq<NodeKey>,
    nodes: seq<PlacedNode>,
    edges: Edges)

  const InitialState: CanvasState := CanvasState(None, [], [], map[])

  /** An event's effect: the state afterwards and, when the handler threw,
      the error. A throw leaves the state as it was at the throw. */
  datatype Outcome = Outcome(state: CanvasState, thrown: Option<string>)

  /** `positionGraph` draws each node's corner at random; the model takes
      the choice as a parameter. */
  type Placement = GraphNode -> Point

  function Place(nodes: seq<GraphNode>, place: Placement): (r: seq<PlacedNode>)
    ensures |r| == |nodes|
    ensures forall i :: 0 <= i < |nodes| ==>
              r[i].node == nodes[i] && Point(r[i].x, r[i].y) == place(nodes[i])
  {
    if |nodes| == 0 then []
    else [PlacedNode(nodes[0], place(nodes[0]).x, place(nodes[0]).y)] + Place(nodes[1..], place)
  }

  /** `parseTree`: compile a subtree as the root of the view, then place
      its nodes. A missing subtree (`null`) makes the compiler's first
      property read throw. */
  function ParseTree(tree: Option<Tree>, place: Placement): (r: Result<(seq<PlacedNode>, Edges)>)
    ensures r.Success? <==> tree.Some? && Process(tree.value, EmptyGraph, true, []).Success?
    ensures r.Success? ==>
              var g := Process(tree.value, EmptyGraph, true, []).value.graph;
              r.value == (Place(g.nodes, place), g.edges)
  {
    if tree.None? then Failure("TypeError: cannot read properties of null")
    else
      var c :- Process(tree.value, EmptyGraph, true, []);
      Success((Place(c.graph.nodes, place), c.graph.edges))
  }

  /** `parseTree` as the file is written. It imports `processTree` as the
      compiler module's default export, but that module exports it only by
      name; the binding is undefined, so the call throws before the tree is
      read, whatever the tree. `ParseTree` above is the intended reading,
      and the rest of the model uses it. */
  function ParseTreeAsWritten(tree: Option<Tree>, place: Placement): (r: Result<(seq<PlacedNode>, Edges)>)
    ensures r.Failure? && r.error == ImportError
  {
    Failure(ImportError)
  }

  const ImportError: string := "TypeError: processTree is not a function"

  /** Every tree the intended `parseTree` shows, the as-written one throws
      on; an empty source file is one. */
  lemma ParseTreeAsWrittenLosesEveryTree(tree: Tree, place: Placement)
    requires Process(tree, EmptyGraph, true, []).Success?
    ensures ParseTree(Some(tree), place).Success?
    ensures ParseTreeAsWritten(Some(tree), place).Failure?
    ensures ParseTree(Some(SourceFile(1, 0, [])), place) == Success(([], map[]))
  {
    var empty := SourceFile(1, 0, []);
    assert Process(empty, EmptyGraph, true, []) == Success(Compiled(EmptyGraph, Some(NodeId(empty))));
  }

  /** `updateGraph(globalTree, currentNodeId)`: show the subtree with this
      id, then move the history to it. */
  function UpdateGraph(s: CanvasState, key: NodeKey, place: Placement): (r: Outcome)
    ensures r.thrown.Some? ==> r.state == s
    ensures r.state.globalTree == s.globalTree
    ensures r.thrown.None? ==> r.state.hierarchy == Navigate(s.hierarchy, key)
  {
    if s.globalTree.None? then Outcome(s, Some("TypeError: cannot read properties of null"))
    else
      var parsed := ParseTree(GetChildTree(s.globalTree.value, key), place);
      if parsed.Failure? then Outcome(s, Some(parsed.error))
      else Outcome(s.(nodes := parsed.value.0, edges := parsed.value.1, hierarchy := Navigate(s.hierarchy, key)), None)
  }

  /** An update either throws and changes nothing, or shows the compiled
      subtree and moves the history with `Navigate`; it succeeds exactly
      when a tree is loaded, the id finds a subtree, and that compiles. */
  lemma UpdateGraphEffect(s: CanvasState, key: NodeKey, place: Placement)
    ensures var o := UpdateGraph(s, key, place);
            && (o.thrown.None? <==>
                  && s.globalTree.Some?
                  && GetChildTree(s.globalTree.value, key).Some?
                  && Process(GetChildTree(s.globalTree.value, key).value, EmptyGraph, true, []).Success?)
            && (o.thrown.Some? ==> o.state == s)
            && (o.thrown.None? ==>
                  var g := Process(GetChildTree(s.globalTree.value, key).value, EmptyGraph, true, []).value.graph;
                  && o.state.globalTree == s.globalTree
                  && o.state.hierarchy == Navigate(s.hierarchy, key)
                  && o.state.nodes == Place(g.nodes, place)
                  && o.state.edges == g.edges)
  {
  }

  /** `updateTree`: store the tree, then show it from id 1 (the source
      file). The tree stays stored even when the update throws. */
  function UpdateTree(s: CanvasState, tree: Tree, place: Placement): Outcome {
    UpdateGraph(s.(globalTree := Some(tree)), Num(1), place)
  }

  // ---------------------------------------------------------------------
  // Clicks

  /** The handlers registered for clicks; the back button is the only one. */
  datatype Handler = BackHandler

  datatype ClickHandler = ClickHandler(rect: Rect, handler: Handler)

  function BackButton(): Rect {
    NormalizeRect(BackButtonArgs)
  }

  function Handlers(): seq<ClickHandler> {
    [ClickHandler(BackButton(), BackHandler)]
  }

  /** A handler's `condition`: the back button acts only below the top
      level. */
  predicate Enabled(h: Handler, s: CanvasState) {
    match h
    case BackHandler => |s.hierarchy| > 1
  }

  /** `draw` paints the back button only below the top level. */
  predicate BackButtonDrawn(s: CanvasState) {
    |s.hierarchy| > 1
  }

  /** Inclusive containment; a comparison with a not-a-number bound is
      false, so such a rectangle contains nothing. */
  predicate RectContains(r: Rect, p: Point) {
    && r.x.Val? && r.y.Val? && r.width.Val? && r.height.Val?
    && p.x >= r.x.v && p.x <= r.x.v + r.width.v
    && p.y >= r.y.v && p.y <= r.y.v + r.height.v
  }

  /** A node's box, with the width and height `drawNode` stored on it. */
  predicate NodeContains(c: NodeConfig, n: PlacedNode, p: Point) {
    p.x >= n.x && p.x <= n.x + Width(c, n) && p.y >= n.y && p.y <= n.y + Height(c, n)
  }

  /** `registeredClickHandlers.find(...)`: the first handler whose
      rectangle contains the point, whatever its condition. */
  function HandlerAt(hs: seq<ClickHandler>, p: Point): (r: Option<ClickHandler>)
    ensures r.Some? ==> r.value in hs && RectContains(r.value.rect, p)
    ensures r.None? <==> forall i :: 0 <= i < |hs| ==> !RectContains(hs[i].rect, p)
    ensures r.Some? ==> exists i :: 0 <= i < |hs| && hs[i] == r.value && forall j :: 0 <= j < i ==> !RectContains(hs[j].rect, p)
  {
    if |hs| == 0 then None
    else if RectContains(hs[0].rect, p) then Some(hs[0])
    else
      var r := HandlerAt(hs[1..], p);
      if r.Some? then
        ghost var i :| 0 <= i < |hs[1..]| && hs[1..][i] == r.value && forall j :: 0 <= j < i ==> !RectContains(hs[1..][j].rect, p);
        assert hs[i + 1] == r.value;
        assert forall j :: 0 < j < i + 1 ==> hs[j] == hs[1..][j - 1];
        r
      else r
  }

  /** `Object.values(state.nodes).find(...)`: the first node, in table
      order, whose box contains the point. */
  function NodeAt(c: NodeConfig, nodes: seq<PlacedNode>, p: Point): (r: Option<nat>)
    ensures r.Some? ==> r.value < |nodes| && NodeContains(c, nodes[r.value], p)
    ensures r.Some? ==> forall j :: 0 <= j < r.value ==> !NodeContains(c, nodes[j], p)
    ensures r.None? <==> forall j :: 0 <= j < |nodes| ==> !NodeContains(c, nodes[j], p)
  {
    if |nodes| == 0 then None
    else if NodeContains(c, nodes[0], p) then Some(0)
    else
      var r := NodeAt(c, nodes[1..], p);
      if r.Some? then Some(r.value + 1) else None
  }

  /** What a click does: at most one of going back, entering a function
      box, or nothing. */
  datatype ClickAction = GoBack | Enter(id: string) | Ignore

  /** `handleClick`'s decision: a button hit whose condition holds wins;
      otherwise (also when the hit button is disabled) the first node under
      the point is entered if it is a function box. */
  function ClickTarget(c: NodeConfig, s: CanvasState, p: Point): ClickAction {
    var b := HandlerAt(Handlers(), p);
    if b.Some? && Enabled(b.value.handler, s) then GoBack
    else
      var n := NodeAt(c, s.nodes, p);
      if n.Some? && s.nodes[n.value].node.nodeType == "FunctionDeclaration" then Enter(s.nodes[n.value].node.id)
      else Ignore
  }

  /** The click position in canvas pixels. */
  function CanvasPoint(clientX: real, clientY: real, left: real, top: real, dpr: real): Point {
    Point((clientX - left) * dpr, (clientY - top) * dpr)
  }

  /** `handleClick` and `handleBackButtonClick`: going back navigates to the
      second-to-last history entry; entering a box navigates to the box's
      composite id. */
  function HandleClick(c: NodeConfig, s: CanvasState, p: Point, place: Placement): (r: Outcome)
    ensures r.thrown.Some? ==> r.state == s
    ensures r.state.globalTree == s.globalTree
    ensures ClickTarget(c, s, p).Ignore? ==> r == Outcome(s, None)
  {
    match ClickTarget(c, s, p)
    case GoBack => UpdateGraph(s, s.hierarchy[|s.hierarchy| - 2], place)
    case Enter(id) => UpdateGraph(s, Str(id), place)
    case Ignore => Outcome(s, None)
  }

  /** The back button acts exactly when the click is inside it and the
      button is drawn. */
  lemma GoBackIff(c: NodeConfig, s: CanvasState, p: Point)
    ensures ClickTarget(c, s, p) == GoBack <==> RectContains(BackButton(), p) && BackButtonDrawn(s)
  {
  }

  /** Entering happens exactly when the back button does not act and the
      first node under the point is a function box; its id is that box's. */
  lemma EnterIff(c: NodeConfig, s: CanvasState, p: Point, id: string)
    ensures ClickTarget(c, s, p) == Enter(id) <==>
              && !(RectContains(BackButton(), p) && BackButtonDrawn(s))
              && exists k :: && 0 <= k < |s.nodes| && NodeContains(c, s.nodes[k], p)
                             && (forall j :: 0 <= j < k ==> !NodeContains(c, s.nodes[j], p))
                             && s.nodes[k].node.nodeType == "FunctionDeclaration"
                             && s.nodes[k].node.id == id
  {
    var n := NodeAt(c, s.nodes, p);
    if exists k :: && 0 <= k < |s.nodes| && NodeContains(c, s.nodes[k], p)
                   && (forall j :: 0 <= j < k ==> !NodeContains(c, s.nodes[j], p))
                   && s.nodes[k].node.nodeType == "FunctionDeclaration"
                   && s.nodes[k].node.id == id {
      var k :| && 0 <= k < |s.nodes| && NodeContains(c, s.nodes[k], p)
               && (forall j :: 0 <= j < k ==> !NodeContains(c, s.nodes[j], p))
               && s.nodes[k].node.nodeType == "FunctionDeclaration"
               && s.nodes[k].node.id == id;
      assert n == Some(k);
    }
  }

  /** A back click that succeeds pops exactly the last history entry. */
  lemma BackClickPops(c: NodeConfig, s: CanvasState, p: Point, place: Placement)
    requires ClickTarget(c, s, p) == GoBack && Distinct(s.hierarchy)
    requires HandleClick(c, s, p, place).thrown.None?
    ensures HandleClick(c, s, p, place).state.hierarchy == s.hierarchy[..|s.hierarchy| - 1]
  {
    BackRemovesLast(s.hierarchy);
  }

  /** Drilling into a function box never succeeds: the box's id is a
      string, `getChildTree` compares it with numeric tree ids and finds
      nothing, and compiling `null` throws. The state is left alone. */
  lemma EnterAlwaysThrows(c: NodeConfig, s: CanvasState, p: Point, place: Placement)
    requires ClickTarget(c, s, p).Enter?
    ensures HandleClick(c, s, p, place).thrown.Some?
    ensures HandleClick(c, s, p, place).state == s
  {
    if s.globalTree.Some? {
      StringKeyNeverFound(s.globalTree.value, ClickTarget(c, s, p).id);
    }
  }

  /** The histories the canvas can reach: empty before the first load, the
      source file's id after it. */
  predicate ReachableHistory(h: seq<NodeKey>) {
    h == [] || h == [Num(1)]
  }

  /** Loading a tree and clicking keep the history reachable; so the back
      button is never drawn and never acts. */
  lemma UpdateTreeKeepsHistory(s: CanvasState, tree: Tree, place: Placement)
    requires ReachableHistory(s.hierarchy)
    ensures ReachableHistory(UpdateTree(s, tree, place).state.hierarchy)
  {
    var s1 := s.(globalTree := Some(tree));
    UpdateGraphEffect(s1, Num(1), place);
    assert Navigate(s.hierarchy, Num(1)) == [Num(1)];
  }

  lemma ClickKeepsHistory(c: NodeConfig, s: CanvasState, p: Point, place: Placement)
    requires ReachableHistory(s.hierarchy)
    ensures ReachableHistory(HandleClick(c, s, p, place).state.hierarchy)
    ensures !BackButtonDrawn(HandleClick(c, s, p, place).state)
  {
    match ClickTarget(c, s, p)
    case GoBack =>
    case Enter(_) => EnterAlwaysThrows(c, s, p, place);
    case Ignore =>
  }

  /** What reaches the canvas: a new tree from the editor, or a click at
      client coordinates. */
  datatype Event = Load(tree: Tree) | Click(clientX: real, clientY: real)

  /** The canvas's bounding-box corner and pixel ratio, read once when the
      canvas is set up. */
  datatype Frame = Frame(left: real, top: real, dpr: real)

  /** One event's effect on the state; a handler that throws leaves the
      state as it was. */
  function Step(c: NodeConfig, f: Frame, s: CanvasState, e: Event, place: Placement): CanvasState {
    match e
    case Load(tree) => UpdateTree(s, tree, place).state
    case Click(x, y) => HandleClick(c, s, CanvasPoint(x, y, f.left, f.top, f.dpr), place).state
  }

  function Run(c: NodeConfig, f: Frame, s: CanvasState, es: seq<Event>, place: Placement): CanvasState
    decreases |es|
  {
    if |es| == 0 then s else Run(c, f, Step(c, f, s, es[0], place), es[1..], place)
  }

  /** From a reachable history, any sequence of loads and clicks keeps the
      history reachable. */
  lemma {:induction false} RunKeepsHistory(c: NodeConfig, f: Frame, s: CanvasState, es: seq<Event>, place: Placement)
    requires ReachableHistory(s.hierarchy)
    ensures ReachableHistory(Run(c, f, s, es, place).hierarchy)
    decreases |es|
  {
    if |es| > 0 {
      match es[0] {
        case Load(tree) => UpdateTreeKeepsHistory(s, tree, place);
        case Click(x, y) => ClickKeepsHistory(c, s, CanvasPoint(x, y, f.left, f.top, f.dpr), place);
      }
      RunKeepsHistory(c, f, Step(c, f, s, es[0], place), es[1..], place);
    }
  }

  /** Starting from the empty canvas, no sequence of events ever shows the
      back button: the history never grows past the source file's id. */
  lemma BackButtonNeverDrawn(c: NodeConfig, f: Frame, es: seq<Event>, place: Placement)
    ensures Run(c, f, InitialState, es, place).hierarchy in {[], [Num(1)]}
    ensures !BackButtonDrawn(Run(c, f, InitialState, es, place))
  {
    RunKeepsHistory(c, f, InitialState, es, place);
  }

  // ---------------------------------------------------------------------
  // Edges on screen

  /** `draw` strokes, for each producer of each consumer, a line from the
      consumer's anchor to the producer's; it throws unless both ends of
      every such line have one. A consumer with no producers is never
      looked up. */
  ghost predicate EdgesDrawable(c: NodeConfig, s: CanvasState) {
    forall k, i :: k in s.edges && 0 <= i < |s.edges[k]| ==>
      && FindEdgeExtremity(c, s.nodes, Some(k)).Success?
      && FindEdgeExtremity(c, s.nodes, s.edges[k][i]).Success?
  }

  /** An edge to an undefined producer, as a construct outside the
      compiler's switch leaves, makes drawing throw. */
  lemma UndefinedProducerNotDrawable(c: NodeConfig, s: CanvasState, k: string, i: nat)
    requires k in s.edges && i < |s.edges[k]| && s.edges[k][i].None?
    ensures !EdgesDrawable(c, s)
  {
    UndefinedEndpointThrows(c, s.nodes);
  }

  /** Every consumer of a compiled graph is an input some placed node owns,
      so its end of every edge has an anchor. */
  lemma ConsumersHaveAnchors(c: NodeConfig, g: Graph, place: Placement, k: string)
    requires ConsumersAreInputs(g) && k in g.edges
    ensures FindEdgeExtremity(c, Place(g.nodes, place), Some(k)).Success?
  {
    var nodes := Place(g.nodes, place);
    var i, j :| 0 <= i < |g.nodes| && 0 <= j < |g.nodes[i].inputs| && g.nodes[i].inputs[j].id == k;
    assert nodes[i].node == g.nodes[i];
    assert PortIndex(nodes[i].node.inputs, Some(k)).Some?;
    AnchorIsSocketOfFirstOwner(c, nodes, Some(k));
  }

  /** Every port of a node in the table has an anchor once placed. */
  lemma PortsHaveAnchors(c: NodeConfig, g: Graph, place: Placement, id: string)
    requires HasPort(g.nodes, id)
    ensures FindEdgeExtremity(c, Place(g.nodes, place), Some(id)).Success?
  {
    var nodes := Place(g.nodes, place);
    var i :| 0 <= i < |g.nodes| && PortOf(g.nodes[i], id);
    assert nodes[i].node == g.nodes[i];
    if exists j :: 0 <= j < |g.nodes[i].inputs| && g.nodes[i].inputs[j].id == id {
      assert PortIndex(nodes[i].node.inputs, Some(id)).Some?;
    } else {
      assert PortIndex(nodes[i].node.outputs, Some(id)).Some?;
    }
    AnchorIsSocketOfFirstOwner(c, nodes, Some(id));
  }

  /** A graph whose consumers are inputs and whose defined producers are
      ports of its nodes, once placed, can be drawn exactly when no producer
      is undefined. */
  lemma DrawableIffDefined(c: NodeConfig, g: Graph, place: Placement, s: CanvasState)
    requires ConsumersAreInputs(g) && ProducersArePorts(g)
    requires s.nodes == Place(g.nodes, place) && s.edges == g.edges
    ensures EdgesDrawable(c, s) <==> forall k, i :: k in g.edges && 0 <= i < |g.edges[k]| ==> g.edges[k][i].Some?
  {
    if forall k, i :: k in g.edges && 0 <= i < |g.edges[k]| ==> g.edges[k][i].Some? {
      forall k | k in s.edges
        ensures FindEdgeExtremity(c, s.nodes, Some(k)).Success?
        ensures forall i :: 0 <= i < |s.edges[k]| ==> FindEdgeExtremity(c, s.nodes, s.edges[k][i]).Success?
      {
        ConsumersHaveAnchors(c, g, place, k);
        forall i | 0 <= i < |s.edges[k]| ensures FindEdgeExtremity(c, s.nodes, s.edges[k][i]).Success? {
          PortsHaveAnchors(c, g, place, s.edges[k][i].value);
        }
      }
    } else {
      var k, i :| k in g.edges && 0 <= i < |g.edges[k]| && g.edges[k][i].None?;
      UndefinedProducerNotDrawable(c, s, k, i);
    }
  }

  /** A program with distinct ids whose operands are never whole files,
      compiled and placed as `parseTree` does: every edge can be drawn
      exactly when no producer is undefined. */
  lemma CompiledEdgesDrawable(c: NodeConfig, t: Tree, place: Placement)
    requires DistinctIds(t) && NoSourceOperand(t)
    requires Process(t, EmptyGraph, true, []).Success?
    ensures var g := Process(t, EmptyGraph, true, []).value.graph;
            var s := CanvasState(Some(t), [], Place(g.nodes, place), g.edges);
            EdgesDrawable(c, s) <==> forall k, i :: k in g.edges && 0 <= i < |g.edges[k]| ==> g.edges[k][i].Some?
  {
    var g := Process(t, EmptyGraph, true, []).value.graph;
    CompiledGraphWellFormed(t);
    CompiledProducersArePorts(t);
    DrawableIffDefined(c, g, place, CanvasState(Some(t), [], Place(g.nodes, place), g.edges));
  }
}
