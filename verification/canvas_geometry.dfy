/** The arithmetic of the graph canvas, without the drawing calls: the size
    of a node's box, where its sockets are drawn, where an edge attaches,
    and the rectangle normalisation the back button goes through. Lengths
    are canvas pixels (CSS pixels times the device pixel ratio `dpr`);
    floating point is modelled by `real`. */
module CanvasGeometry {
  import opened Wrappers
  import opened ProcessTree

  function Max(a: real, b: real): (m: real)
    ensures m >= a && m >= b && (m == a || m == b)
  {
    if a >= b then a else b
  }

  /** The node-drawing constants of `drawConfiguration.node` that the
      geometry reads. */
  datatype NodeConfig = NodeConfig(
    radius: real,
    labelFontSize: real,
    labelPaddingVertical: real,
    labelPaddingHorizontal: real,
    ioVerticalPadding: real,
    ioCircleRadius: real,
    ioCircleHorizontalPadding: real,
    ioLabelFontSize: real,
    ioLabelPadding: real)

  /** The configuration the canvas builds for a device pixel ratio. */
  function DefaultConfig(dpr: real): NodeConfig {
    NodeConfig(4.0 * dpr, 16.0 * dpr, 4.0 * dpr, 8.0 * dpr, 6.0 * dpr, 8.0 * dpr, 8.0 * dpr, 12.0 * dpr, 0.0 * dpr)
  }

  /** The minimum box width; it is not scaled by `dpr`. */
  const MinWidth: real := 300.0

  /** Height of one input/output row. */
  function IoHeight(c: NodeConfig): real {
    2.0 * c.ioVerticalPadding + Max(c.ioCircleRadius, c.ioLabelFontSize)
  }

  /** `width` in `drawNode`: the label's width plus padding, at least 300. */
  function BoxWidth(c: NodeConfig, labelLength: nat): (w: real)
    ensures w >= MinWidth
    ensures w >= labelLength as real * c.labelFontSize + 2.0 * c.labelPaddingHorizontal
    ensures w == MinWidth || w == labelLength as real * c.labelFontSize + 2.0 * c.labelPaddingHorizontal
  {
    Max(labelLength as real * c.labelFontSize + 2.0 * c.labelPaddingHorizontal, MinWidth)
  }

  /** `height` in `drawNode`: the label row plus as many io rows as the
      longer of the two socket lists. */
  function BoxHeight(c: NodeConfig, inputs: nat, outputs: nat): real {
    2.0 * c.labelPaddingVertical + c.labelFontSize + Max(inputs as real * IoHeight(c), outputs as real * IoHeight(c))
  }

  /** `heightCursor`: where the first io row's centre line is drawn. */
  function HeaderHeight(c: NodeConfig): real {
    2.0 * c.labelPaddingVertical + 1.5 * c.labelFontSize
  }

  datatype Point = Point(x: real, y: real)

  /** A compiled node as the canvas holds it after `positionGraph` gave it a
      top-left corner. */
  datatype PlacedNode = PlacedNode(node: GraphNode, x: real, y: real)

  function Width(c: NodeConfig, p: PlacedNode): real {
    BoxWidth(c, |p.node.text|)
  }

  function Height(c: NodeConfig, p: PlacedNode): real {
    BoxHeight(c, |p.node.inputs|, |p.node.outputs|)
  }

  /** Centre of the circle `drawNode` strokes for input `index`: the canvas
      is translated to the node's corner, then the circle sits one padding
      plus one radius in from the left edge. */
  function InputSocket(c: NodeConfig, p: PlacedNode, index: nat): Point {
    var localX := c.ioCircleHorizontalPadding + c.ioCircleRadius;
    var localY := HeaderHeight(c) + index as real * IoHeight(c);
    Point(p.x + localX, p.y + localY)
  }

  /** Centre of the circle drawn for output `index`, the same distance in
      from the right edge. */
  function OutputSocket(c: NodeConfig, p: PlacedNode, index: nat): Point {
    var localX := Width(c, p) - (c.ioCircleHorizontalPadding + c.ioCircleRadius);
    var localY := HeaderHeight(c) + index as real * IoHeight(c);
    Point(p.x + localX, p.y + localY)
  }

  /** First index of a port with this id, as `findIndex` compares
      `port.id === id`; an undefined id matches no port. */
  function PortIndex(ports: seq<Port>, id: Option<string>): (r: Option<nat>)
    ensures r.Some? ==> r.value < |ports| && id == Some(ports[r.value].id)
    ensures r.Some? ==> forall j :: 0 <= j < r.value ==> id != Some(ports[j].id)
    ensures r.None? <==> forall j :: 0 <= j < |ports| ==> id != Some(ports[j].id)
  {
    if |ports| == 0 then None
    else if id == Some(ports[0].id) then Some(0)
    else
      var rest := PortIndex(ports[1..], id);
      if rest.None? then None else Some(rest.value + 1)
  }

  /** An id as a template literal spells it. */
  function IdText(id: Option<string>): string {
    if id.Some? then id.value else "undefined"
  }

  /** `findEdgeExtremityPosition`: walk the nodes in order and, within each,
      the inputs before the outputs; the first port with the id gives the
      anchor. With no owner it throws `Edge extremity not found: <id>`. */
  function FindEdgeExtremity(c: NodeConfig, nodes: seq<PlacedNode>, id: Option<string>): Result<Point>
  {
    if |nodes| == 0 then Failure("Edge extremity not found: " + IdText(id))
    else
      var p := nodes[0];
      var i := PortIndex(p.node.inputs, id);
      if i.Some? then
        Success(Point(p.x + c.ioCircleHorizontalPadding + c.ioCircleRadius,
                      p.y + 2.0 * c.labelPaddingVertical + 1.5 * c.labelFontSize
                      + i.value as real * (2.0 * c.ioVerticalPadding + Max(c.ioCircleRadius, c.ioLabelFontSize))))
      else
        var o := PortIndex(p.node.outputs, id);
        if o.Some? then
          Success(Point(p.x + Width(c, p) - c.ioCircleHorizontalPadding - c.ioCircleRadius,
                        p.y + 2.0 * c.labelPaddingVertical + 1.5 * c.labelFontSize
                        + o.value as real * (2.0 * c.ioVerticalPadding + Max(c.ioCircleRadius, c.ioLabelFontSize))))
        else FindEdgeExtremity(c, nodes[1..], id)
  }

  /** The node has an input or an output with this id. */
  predicate Owns(p: PlacedNode, id: Option<string>) {
    PortIndex(p.node.inputs, id).Some? || PortIndex(p.node.outputs, id).Some?
  }

  /** The socket `drawNode` draws for the port with this id on an owning
      node: its input socket when it is an input, else its output socket. */
  function SocketOf(c: NodeConfig, p: PlacedNode, id: Option<string>): Point
    requires Owns(p, id)
  {
    var i := PortIndex(p.node.inputs, id);
    if i.Some? then InputSocket(c, p, i.value) else OutputSocket(c, p, PortIndex(p.node.outputs, id).value)
  }

  /** Edge anchors coincide with the drawn sockets: the search succeeds
      exactly when some node owns the id, and then returns the socket of
      the first owner. */
  lemma AnchorIsSocketOfFirstOwner(c: NodeConfig, nodes: seq<PlacedNode>, id: Option<string>)
    ensures FindEdgeExtremity(c, nodes, id).Success? <==> exists k :: 0 <= k < |nodes| && Owns(nodes[k], id)
    ensures FindEdgeExtremity(c, nodes, id).Success? ==>
              exists k :: && 0 <= k < |nodes| && Owns(nodes[k], id)
                          && (forall j :: 0 <= j < k ==> !Owns(nodes[j], id))
                          && FindEdgeExtremity(c, nodes, id).value == SocketOf(c, nodes[k], id)
    ensures FindEdgeExtremity(c, nodes, id).Failure? ==>
              FindEdgeExtremity(c, nodes, id).error == "Edge extremity not found: " + IdText(id)
  {
    AnchorFoundIffOwned(c, nodes, id);
    AnchorAtFirstOwner(c, nodes, id);
  }

  /** The search fails exactly when no node owns the id, and then with the
      message naming it. */
  lemma {:induction false} AnchorFoundIffOwned(c: NodeConfig, nodes: seq<PlacedNode>, id: Option<string>)
    ensures FindEdgeExtremity(c, nodes, id).Success? <==> exists k :: 0 <= k < |nodes| && Owns(nodes[k], id)
    ensures FindEdgeExtremity(c, nodes, id).Failure? ==>
              FindEdgeExtremity(c, nodes, id).error == "Edge extremity not found: " + IdText(id)
    decreases |nodes|
  {
    if |nodes| > 0 && !Owns(nodes[0], id) {
      AnchorFoundIffOwned(c, nodes[1..], id);
      if FindEdgeExtremity(c, nodes, id).Success? {
        var k :| 0 <= k < |nodes[1..]| && Owns(nodes[1..][k], id);
        assert nodes[k + 1] == nodes[1..][k];
      } else {
        forall k | 0 <= k < |nodes| ensures !Owns(nodes[k], id) {
          if k > 0 { assert nodes[k] == nodes[1..][k - 1]; }
        }
      }
    }
  }

  /** A successful search answers with the socket of the first owner. */
  lemma {:induction false} AnchorAtFirstOwner(c: NodeConfig, nodes: seq<PlacedNode>, id: Option<string>)
    ensures FindEdgeExtremity(c, nodes, id).Success? ==>
              exists k :: && 0 <= k < |nodes| && Owns(nodes[k], id)
                          && (forall j :: 0 <= j < k ==> !Owns(nodes[j], id))
                          && FindEdgeExtremity(c, nodes, id).value == SocketOf(c, nodes[k], id)
    decreases |nodes|
  {
    if |nodes| > 0 {
      if Owns(nodes[0], id) {
        assert FindEdgeExtremity(c, nodes, id).value == SocketOf(c, nodes[0], id);
      } else if FindEdgeExtremity(c, nodes, id).Success? {
        AnchorAtFirstOwner(c, nodes[1..], id);
        var k :| && 0 <= k < |nodes[1..]| && Owns(nodes[1..][k], id)
                 && (forall j :: 0 <= j < k ==> !Owns(nodes[1..][j], id))
                 && FindEdgeExtremity(c, nodes[1..], id).value == SocketOf(c, nodes[1..][k], id);
        assert nodes[k + 1] == nodes[1..][k];
        forall j | 0 <= j < k + 1 ensures !Owns(nodes[j], id) {
          if j > 0 { assert nodes[j] == nodes[1..][j - 1]; }
        }
      }
    }
  }

  /** An undefined producer (an edge to a construct outside the compiler's
      switch) has no anchor: drawing that edge throws. */
  lemma UndefinedEndpointThrows(c: NodeConfig, nodes: seq<PlacedNode>)
    ensures FindEdgeExtremity(c, nodes, None) == Failure("Edge extremity not found: undefined")
  {
    AnchorIsSocketOfFirstOwner(c, nodes, None);
  }

  /** With the canvas's configuration every socket centre lies inside its
      node's box, horizontally between its edges and vertically below the
      label band (two paddings and one font height) and above the bottom. */
  lemma SocketsInsideBox(dpr: real, p: PlacedNode, index: nat, output: bool)
    requires dpr > 0.0
    requires if output then index < |p.node.outputs| else index < |p.node.inputs|
    ensures var c := DefaultConfig(dpr);
            var s := if output then OutputSocket(c, p, index) else InputSocket(c, p, index);
            && p.x <= s.x <= p.x + Width(c, p)
            && p.y + 2.0 * c.labelPaddingVertical + c.labelFontSize < s.y <= p.y + Height(c, p)
  {
    var c := DefaultConfig(dpr);
    var rows := if output then |p.node.outputs| else |p.node.inputs|;
    SocketRowInsideBox(dpr, p, index, rows);
    WidthCoversSockets(dpr, |p.node.text|);
  }

  /** The vertical half: row `index` of a list of `rows` sockets lies
      below the label band and above the box's bottom edge. */
  lemma SocketRowInsideBox(dpr: real, p: PlacedNode, index: nat, rows: nat)
    requires dpr > 0.0 && index < rows && (rows == |p.node.inputs| || rows == |p.node.outputs|)
    ensures var c := DefaultConfig(dpr);
            p.y + 2.0 * c.labelPaddingVertical + c.labelFontSize < p.y + HeaderHeight(c) + index as real * IoHeight(c) <= p.y + Height(c, p)
  {
    var c := DefaultConfig(dpr);
    RowInsideBox(dpr, index, rows, |p.node.inputs|, |p.node.outputs|);
    assert HeaderHeight(c) == 32.0 * dpr;
    assert IoHeight(c) == 24.0 * dpr;
  }

  /** The box is at least as wide as the two socket insets. */
  lemma WidthCoversSockets(dpr: real, labelLength: nat)
    requires dpr > 0.0
    ensures BoxWidth(DefaultConfig(dpr), labelLength) >= 16.0 * dpr
  {
    MulMono(0.0, labelLength as real, 16.0 * dpr);
  }

  /** The row arithmetic behind `SocketsInsideBox`, for the default sizes. */
  lemma RowInsideBox(dpr: real, index: nat, rows: nat, inputs: nat, outputs: nat)
    requires dpr > 0.0 && index < rows && (rows == inputs || rows == outputs)
    ensures 0.0 <= 32.0 * dpr + index as real * (24.0 * dpr)
    ensures 32.0 * dpr + index as real * (24.0 * dpr) <= 24.0 * dpr + Max(inputs as real * (24.0 * dpr), outputs as real * (24.0 * dpr))
  {
    var k := index as real;
    MulMono(0.0, k, 24.0 * dpr);
    assert 32.0 * dpr + k * (24.0 * dpr) == (32.0 + 24.0 * k) * dpr;
    assert 24.0 * dpr + rows as real * (24.0 * dpr) == (24.0 + 24.0 * rows as real) * dpr;
    MulMono(32.0 + 24.0 * k, 24.0 + 24.0 * rows as real, dpr);
    assert rows as real * (24.0 * dpr) <= Max(inputs as real * (24.0 * dpr), outputs as real * (24.0 * dpr));
  }

  lemma MulMono(a: real, b: real, d: real)
    requires a <= b && d >= 0.0
    ensures a * d <= b * d
  {
  }

  /** The input sockets lie strictly left of the output sockets exactly
      when the box is wider than the two insets: a label of two characters
      or more, or a minimum width above them (a pixel ratio under 9.375). */
  lemma InputsLeftOfOutputs(dpr: real, p: PlacedNode, i: nat, o: nat)
    requires dpr > 0.0
    ensures InputSocket(DefaultConfig(dpr), p, i).x < OutputSocket(DefaultConfig(dpr), p, o).x
            <==> |p.node.text| >= 2 || 32.0 * dpr < MinWidth
  {
    var c := DefaultConfig(dpr);
    if |p.node.text| >= 2 {
      MulMono(2.0, |p.node.text| as real, c.labelFontSize);
    } else {
      MulMono(|p.node.text| as real, 1.0, c.labelFontSize);
    }
  }

  // ---------------------------------------------------------------------
  // normalizeRect

  /** A JavaScript number slot: absent, not-a-number (what arithmetic on an
      absent slot yields), or a value. */
  datatype JsNum = Undefined | NaN | Val(v: real)

  function Sub(a: JsNum, b: JsNum): (r: JsNum)
    ensures r.Val? <==> a.Val? && b.Val?
    ensures r.Val? ==> r.v == a.v - b.v
  {
    if a.Val? && b.Val? then Val(a.v - b.v) else NaN
  }

  /** The argument of `normalizeRect`: the six geometry slots and the `x`/`y`
      that may travel among the remaining props. */
  datatype RectArgs = RectArgs(
    top: JsNum, left: JsNum, right: JsNum, bottom: JsNum, width: JsNum, height: JsNum,
    propX: Option<JsNum>, propY: Option<JsNum>)

  datatype Rect = Rect(y: JsNum, x: JsNum, width: JsNum, height: JsNum)

  /** `normalizeRect`: derive the top from the bottom and height when it is
      absent (left likewise), the width and height from the far edges when
      absent; the remaining props are spread last, so an `x` or `y` among
      them replaces the derived one. */
  function NormalizeRect(a: RectArgs): (r: Rect)
    ensures a.propY.Some? ==> r.y == a.propY.value
    ensures a.propX.Some? ==> r.x == a.propX.value
    ensures a.propY.None? && a.top != Undefined ==> r.y == a.top
    ensures a.propX.None? && a.left != Undefined ==> r.x == a.left
    ensures a.width != Undefined ==> r.width == a.width
    ensures a.height != Undefined ==> r.height == a.height
  {
    var top := if a.top == Undefined then Sub(a.bottom, a.height) else a.top;
    var left := if a.left == Undefined then Sub(a.right, a.width) else a.left;
    var width := if a.width == Undefined then Sub(a.right, left) else a.width;
    var height := if a.height == Undefined then Sub(a.bottom, top) else a.height;
    Rect(if a.propY.Some? then a.propY.value else top,
         if a.propX.Some? then a.propX.value else left,
         width, height)
  }

  /** Given the bottom edge and one of top or height, the derived vertical
      extent ends at the bottom edge; the same holds horizontally. */
  lemma NormalizeRectMeetsFarEdges(a: RectArgs)
    ensures a.propY.None? && a.bottom.Val? && ((a.top.Val? && a.height == Undefined) || (a.top == Undefined && a.height.Val?)) ==>
              var r := NormalizeRect(a); r.y.Val? && r.height.Val? && r.y.v + r.height.v == a.bottom.v
    ensures a.propX.None? && a.right.Val? && ((a.left.Val? && a.width == Undefined) || (a.left == Undefined && a.width.Val?)) ==>
              var r := NormalizeRect(a); r.x.Val? && r.width.Val? && r.x.v + r.width.v == a.right.v
  {
  }

  /** A derived slot whose inputs are missing is not-a-number, never a
      number. */
  lemma NormalizeRectMissingEdges(a: RectArgs)
    ensures a.propY.None? && a.top == Undefined && !(a.bottom.Val? && a.height.Val?) ==> !NormalizeRect(a).y.Val?
    ensures a.propX.None? && a.left == Undefined && !(a.right.Val? && a.width.Val?) ==> !NormalizeRect(a).x.Val?
  {
  }

  /** The back button's arguments: width 64, height 32, and `x`/`y` 16
      among the props. */
  const BackButtonArgs: RectArgs :=
    RectArgs(Undefined, Undefined, Undefined, Undefined, Val(64.0), Val(32.0), Some(Val(16.0)), Some(Val(16.0)))

  /** The derived top and left are not-a-number, but the props' `x` and `y`
      override them, so the back button is the 64 by 32 box at (16, 16). */
  lemma BackButtonRect()
    ensures NormalizeRect(BackButtonArgs) == Rect(Val(16.0), Val(16.0), Val(64.0), Val(32.0))
    ensures NormalizeRect(BackButtonArgs.(propX := None, propY := None)) == Rect(NaN, NaN, Val(64.0), Val(32.0))
  {
  }
}
