# codeo: the code-to-graph core, modelled in Dafny

codeo shows a program as a graph of nodes and wires. The Dafny model covers the path from source text to what the user sees and drags:

- The server parses the code and numbers every syntax node in pre-order, from 1. It then serialises the tree to JSON with a replacer. The replacer drops three flag keys, spells `kind` by name and drops any object it has already emitted.
- The front end compiles that tree with `processTree`:
  - a root function declaration becomes an *arguments* node whose outputs are the parameters;
  - a nested one becomes a single box;
  - a `return` and a binary expression become nodes;
  - identifiers resolve to the port of the nearest enclosing parameter with that name.
- Edges map each consumer (input) port id to the producer port ids wired into it.
- The graph canvas:
  - sizes each node and places its input and output sockets;
  - anchors each edge at its sockets;
  - keeps a drill-down history;
  - dispatches clicks to a back button or to a function box.
- The blocks editor snaps a dragged block next to the closest neighbour within an eighth of a block.

Module layout, one file each:

| module | covers |
|---|---|
| `Wrappers` | `Option` and `Result` |
| `PortIds` | `createId` and decimal digits |
| `SyntaxTree` | the compiled tree kinds |
| `ProcessTree` | the compiler |
| `ProcessTreeProperties`, `ProcessTreeCases`, `ProcessTreeProducers` | what the compiler is proved to do |
| `DefaultProgram` | the editor's default program, compiled |
| `Navigation` | the history step and `getChildTree` |
| `CanvasGeometry` | node sizes, sockets, `findEdgeExtremityPosition`, `normalizeRect` |
| `GraphCanvas` | canvas state, `updateGraph`, `handleClick` |
| `Blocks` | snapping and dragging |
| `AstIds` | the resolver's numbering |
| `AstJson` | the resolver's serialisation |

Where the code departs from its description, the model follows the code:

- A construct outside the compiler's switch yields no port. Its consumer's edge list then holds an undefined producer; compilation does not fail. Drawing that edge then throws.
- Drilling into a function box never shows its body. The box's id is a string, while `getChildTree` compares it against numeric tree ids with `===`. Finding no subtree, the compiler fails on the missing tree before the history changes. So the history stays empty or `[1]`, and the back button is never drawn.

## Model

| member | source | states |
|---|---|---|
| PortIds.CreateId | front/src/domain/processTree.js:1-3 | The id is the kind, then `_`, then the decimal digits of the number. |
| PortIds.SplitCreateId | front/src/domain/processTree.js:1-3 | Splitting a created id at its last `_` gives back the kind and the number, so ids are decodable. |
| PortIds.CreateIdInjective | front/src/domain/processTree.js:1-3 | Different numbers always give different ids, and so do different kinds. |
| PortIds.ParseNatToString | front/src/domain/processTree.js:2 | Parsing the digits a number is printed with gives the number back. |
| ProcessTree.Put | front/src/domain/processTree.js:53-70 | Writing `nodes[id]` keeps an existing key in place with the new value, or appends a new key last; no other entry changes. |
| ProcessTree.CreateEdge | front/src/domain/processTree.js:145-148 | The producer is appended to the consumer's list, which is created when absent; other consumers are unchanged. |
| ProcessTree.FindRight | front/src/domain/processTree.js:150-158 | The found entry is the last one with the label; none is found exactly when no entry has it. |
| ProcessTree.IdList | front/src/domain/processTree.js:53-70 | The node table's keys in insertion order, one per node. |
| ProcessTree.ParamPorts | front/src/domain/processTree.js:58-62 | One port per parameter, in parameter order. |
| ProcessTreeProperties.ProcessSucceedsIffResolves | front/src/domain/processTree.js:16-56 | Compiling a tree succeeds exactly when every identifier it reaches is bound in scope and every nested function it reaches has a name, per an independent recursive definition. |
| ProcessTreeProperties.ProcessAllSucceedsIffResolves | front/src/domain/processTree.js:46 | Compiling a statement list succeeds exactly when each statement resolves. |
| ProcessTreeProperties.ProcessExtendsEdges | front/src/domain/processTree.js:145-148 | Compiling never removes an edge: every existing list stays a prefix of its new value. |
| ProcessTreeProperties.ProcessAllExtendsEdges | front/src/domain/processTree.js:46 | The same for a statement list. |
| ProcessTreeProperties.ProcessKeys | front/src/domain/processTree.js:5-143 | After a successful compile, the node keys are the old ones plus the ids the tree emits, and the edge keys are the old ones plus the consumers it wires. Both come from an independent reference definition. |
| ProcessTreeProperties.ProcessAllKeys | front/src/domain/processTree.js:46 | The same for a statement list. |
| ProcessTreeProperties.ProcessAppends | front/src/domain/processTree.js:10-142 | Starting from a table without the tree's ids, compiling appends exactly the emitted nodes in emission order and leaves the earlier ones intact. |
| ProcessTreeProperties.ProcessAllAppends | front/src/domain/processTree.js:46 | The same for a statement list. |
| ProcessTreeProperties.IdsNumberedFromTree | front/src/domain/processTree.js:1-7 | Every node id and consumer id a tree produces is suffixed with one of that tree's own numeric ids. |
| ProcessTreeProperties.DistinctIdsGiveDistinctPorts | front/src/domain/processTree.js:1-7 | With distinct numeric ids in the tree, the emitted node ids are pairwise distinct, and so are the wired consumer ids. |
| ProcessTreeProperties.DistinctIdsGiveDistinctTrees | front/src/domain/processTree.js:46 | The same for a statement list whose trees have pairwise disjoint ids. |
| ProcessTreeProperties.ProcessWiresOnce | front/src/domain/processTree.js:92-138 | Starting from edges without the tree's consumers, each consumer the tree wires receives exactly one producer, and existing lists are untouched. |
| ProcessTreeProperties.ProcessAllWiresOnce | front/src/domain/processTree.js:46 | The same for a statement list. |
| ProcessTreeProperties.CompiledGraphWellFormed | front/src/domain/processTree.js:5-143 | For a tree with distinct ids compiled as the root from an empty graph, the result satisfies four things. The node keys are the emitted ids in order, with no duplicates. The edge keys are exactly the wired consumers. Each consumer has a single producer. Each consumer is an input of some node. |
| ProcessTreeProducers.ProcessProducersArePorts | front/src/domain/processTree.js:5-143 | Over fresh, distinct ids, with every scope entry a port of the table and no source file as an operand, each defined producer a visit wires is an input or output of a stored node. The port a non-root, non-file visit returns is such a port too. |
| ProcessTreeProducers.CompiledProducersArePorts | front/src/domain/processTree.js:5-143 | For a tree with distinct ids and no source file as an operand, compiled as the root from an empty graph, every defined producer of every edge is a port of some node. |
| ProcessTreeCases.ProcessReturnsResultPort | front/src/domain/processTree.js:10-142 | The port a successful compile returns agrees with a non-recursive table per kind. |
| ProcessTreeCases.IdentifierCase | front/src/domain/processTree.js:16-23 | An identifier compiles exactly when it is bound. On success, the port is the last scope entry with its label. Otherwise the error is `Identifier not found: <name>`. |
| ProcessTreeCases.RootArgumentsFirst | front/src/domain/processTree.js:27-45 | A root function's arguments node is the first node of the compiled table, and the table has no duplicate keys. |
| ProcessTreeCases.RootArgumentsUnique | front/src/domain/processTree.js:27-46 | No node after the first is an arguments node: the body's constructs never emit one. |
| ProcessTreeCases.NonRootAllAddsNoArguments | front/src/domain/processTree.js:46 | Compiling statements below the root adds only function boxes, returns and binary nodes. |
| ProcessTreeCases.RootFunctionDeclaration | front/src/domain/processTree.js:27-49 | The root returns its own node id. Its node is labelled `arguments`, has no inputs, and has an output `name_id` per parameter in order. It is the only arguments node. |
| ProcessTreeCases.RootFunctionBodySeesParameters | front/src/domain/processTree.js:27-46 | The root compiles exactly when its body resolves in the caller's scope extended with the parameters. |
| ProcessTreeCases.NonRootFunctionDeclaration | front/src/domain/processTree.js:51-72 | A nested function succeeds exactly when it has a name; without one, reading `name.escapedText` throws. Otherwise it returns `return_id` and adds one box labelled with the name, with its parameters as inputs and a `return` output. It adds no edge. Its body is never looked at. |
| ProcessTreeCases.BinaryExpressionCase | front/src/domain/processTree.js:99-141 | The node is labelled with the operator, with inputs `left_id`/`right_id` at the operands' positions and output `return_id`. The left operand's port is among the left input's producers, the right operand's port is the last producer of the right input, and the visit returns `return_id`. |
| ProcessTreeProducers.BinaryNodeStored | front/src/domain/processTree.js:105-138 | When the ids the expression emits are distinct and new to the table, the binary node itself is in the final table: the operands' visits do not overwrite it. |
| ProcessTreeCases.BinaryWiredOnce | front/src/domain/processTree.js:131-138 | When the consumers the expression wires are distinct and new to the edge map, `left_id` has exactly one producer, the left operand's port, and `right_id` exactly one, the right operand's port. |
| ProcessTreeCases.ReturnStatementCase | front/src/domain/processTree.js:74-97 | A return node with input `return_id`. Without an expression no edge is added; with one, the expression's port becomes the last producer of that input. |
| ProcessTreeProducers.ReturnNodeStored | front/src/domain/processTree.js:78-95 | When the ids the statement emits are distinct and new to the table, the return node itself is in the final table. |
| ProcessTreeCases.ReturnWiredOnce | front/src/domain/processTree.js:92-95 | When the consumers the statement wires are distinct and new to the edge map, `return_id` has exactly one producer, the expression's port. |
| ProcessTreeCases.SourceFileCase | front/src/domain/processTree.js:11-15 | A file compiles exactly when its statements resolve, returns `SourceFile_id`, and adds the nodes its statements emit. |
| SyntaxTree.KindNameDispatches | front/src/domain/processTree.js:6-10 | When an `Other` node's kind is outside the switch, a node's kind is one the switch names exactly when the node is not an `Other`. |
| ProcessTreeCases.OtherKindCase | front/src/domain/processTree.js:142 | A kind outside the switch leaves the graph unchanged and yields no port. |
| DefaultProgram.CompileSumFile | front/src/scenes/Home.js:9-11 | The default `sum(a, b)` file compiles to a single box `sum` with inputs `a`, `b`, output `return`, and no edges. |
| DefaultProgram.CompileSumFunction | front/src/scenes/Home.js:9-11 | The `sum` function, compiled as the root, gives three nodes. Its edges are `return_9 <- return_10`, `left_10 <- a_4` and `right_10 <- b_6`. |
| DefaultProgram.CompileReturnOne | front/src/domain/processTree.js:88-94 | Returning a literal wires the return input to an undefined producer. |
| DefaultProgram.UnboundNameFails | front/src/domain/processTree.js:20 | A free name fails the whole compile with its message. |
| Navigation.IndexOf | front/src/domain/handleGraphCanvas.js:211 | The first index holding the value, or none exactly when the value is absent. |
| Navigation.Navigate | front/src/domain/handleGraphCanvas.js:211-218 | The new history ends with the target, which occurs nowhere earlier. A new target is pushed; a known one truncates the history to the prefix ending at it. No duplicates are introduced. |
| Navigation.NavigateIsShortestPrefix | front/src/domain/handleGraphCanvas.js:211-218 | Any sequence meeting that description equals the result: the contract determines the step. |
| Navigation.NavigateIdempotent | front/src/domain/handleGraphCanvas.js:211-218 | Navigating twice to the same target is the same as once. |
| Navigation.BackRemovesLast | front/src/domain/handleGraphCanvas.js:259-261 | On a duplicate-free history of two or more, going to the second-to-last entry drops exactly the last. |
| Navigation.GetChildTree | front/src/domain/handleGraphCanvas.js:313-323 | A subtree found for a key carries that key as its id. |
| Navigation.GetChildTreeIsFirstMatch | front/src/domain/handleGraphCanvas.js:313-323 | The subtree search returns the first node, in depth-first order through `statements`, whose id equals the key, or none when there is none. |
| Navigation.StringKeyNeverFound | front/src/domain/handleGraphCanvas.js:314 | A string key never equals a numeric tree id, so it finds nothing. |
| CanvasGeometry.BoxWidth | front/src/domain/handleGraphCanvas.js:103 | A box is exactly the larger of 300 and its label plus padding: at least both, and equal to one of them. |
| CanvasGeometry.PortIndex | front/src/domain/handleGraphCanvas.js:344-353 | The first port with the id, or none exactly when no port has it. |
| CanvasGeometry.AnchorIsSocketOfFirstOwner | front/src/domain/handleGraphCanvas.js:340-367 | An anchor is found exactly when some node owns the port. It is then the socket drawn for that port on the first owning node, inputs checked before outputs. Otherwise the error is `Edge extremity not found: <id>`. |
| CanvasGeometry.UndefinedEndpointThrows | front/src/domain/handleGraphCanvas.js:366 | An undefined port id has no anchor. |
| CanvasGeometry.SocketsInsideBox | front/src/domain/handleGraphCanvas.js:102-152 | For a positive pixel ratio, every socket centre lies inside its node's box horizontally. Vertically it lies strictly below the label band (two paddings and one font height) and no lower than the box's bottom. |
| CanvasGeometry.InputsLeftOfOutputs | front/src/domain/handleGraphCanvas.js:103-151 | For a positive pixel ratio, input sockets lie strictly left of output sockets exactly when the label has two characters or more, or 32 times the pixel ratio is below the 300-pixel minimum width. |
| CanvasGeometry.NormalizeRect | front/src/domain/handleGraphCanvas.js:325-338 | A missing edge is derived from its opposite edge and the size; props given as `x`/`y` override. |
| CanvasGeometry.NormalizeRectMeetsFarEdges | front/src/domain/handleGraphCanvas.js:325-338 | Given right, bottom and no size, the rectangle reaches exactly those edges. |
| CanvasGeometry.NormalizeRectMissingEdges | front/src/domain/handleGraphCanvas.js:326-327 | With neither top nor bottom, the top is not a number, and likewise for left and right. |
| CanvasGeometry.BackButtonRect | front/src/domain/handleGraphCanvas.js:45-53 | The back button is the rectangle at (16, 16), 64 by 32, because its own `x`/`y` override the not-a-number top and left. |
| GraphCanvas.Place | front/src/domain/positionGraph.js:1-6 | Placement keeps every node and its order, and adds only a position. |
| GraphCanvas.ParseTree | front/src/domain/handleGraphCanvas.js:303-311 | A missing tree throws; otherwise the nodes and edges are the compiler's, placed. This is the intended reading of the import at line 2 (see Findings). |
| GraphCanvas.ParseTreeAsWritten | front/src/domain/handleGraphCanvas.js:2 | As the import is written, the compiler binding is undefined, so every call throws `processTree is not a function`. |
| GraphCanvas.ParseTreeAsWrittenLosesEveryTree | front/src/domain/handleGraphCanvas.js:2-311 | Every tree the intended reading compiles, the as-written one throws on; an empty source file compiles to no nodes and no edges. |
| GraphCanvas.UpdateGraph | front/src/domain/handleGraphCanvas.js:205-219 | The loaded tree is never replaced; a throw leaves the state as it was, and a success moves the history with `Navigate`. |
| GraphCanvas.UpdateGraphEffect | front/src/domain/handleGraphCanvas.js:205-219 | An update either throws and changes nothing, or shows the compiled subtree and takes the history step. |
| GraphCanvas.HandlerAt | front/src/domain/handleGraphCanvas.js:240 | The first registered handler whose rectangle contains the point, or none exactly when no rectangle does. |
| GraphCanvas.NodeAt | front/src/domain/handleGraphCanvas.js:250-252 | The first node in table order whose box contains the point, or none exactly when no box does. |
| GraphCanvas.HandleClick | front/src/domain/handleGraphCanvas.js:233-261 | A click never replaces the loaded tree; a throw leaves the state as it was, and a click that hits neither an enabled handler nor a function box changes nothing. |
| GraphCanvas.GoBackIff | front/src/domain/handleGraphCanvas.js:240-248 | A click goes back exactly when it hits the back button and the history is deeper than one. |
| GraphCanvas.EnterIff | front/src/domain/handleGraphCanvas.js:240-256 | A click enters a function exactly when the back button does not act and the first box hit is a function box. |
| GraphCanvas.BackClickPops | front/src/domain/handleGraphCanvas.js:259-261 | A successful back click on a duplicate-free history drops exactly its last entry. |
| GraphCanvas.EnterAlwaysThrows | front/src/domain/handleGraphCanvas.js:254-255 | Clicking a function box always throws and leaves the state unchanged. |
| GraphCanvas.UpdateTreeKeepsHistory | front/src/domain/handleGraphCanvas.js:296-299 | Loading a tree from a reachable history leaves the history empty or `[1]`. |
| GraphCanvas.ClickKeepsHistory | front/src/domain/handleGraphCanvas.js:233-261 | So does any click, and from such a history the back button is never drawn. |
| GraphCanvas.RunKeepsHistory | front/src/domain/handleGraphCanvas.js:233-299 | Any sequence of tree loads and clicks, each click converted from client to canvas pixels, keeps a reachable history reachable. |
| GraphCanvas.BackButtonNeverDrawn | front/src/domain/handleGraphCanvas.js:233-299 | From the empty canvas, after any sequence of events the history is `[]` or `[1]`, so the back button is never drawn. |
| GraphCanvas.UndefinedProducerNotDrawable | front/src/domain/handleGraphCanvas.js:174-176 | An edge holding an undefined producer cannot be drawn. |
| GraphCanvas.ConsumersHaveAnchors | front/src/domain/handleGraphCanvas.js:340-351 | Every consumer of a compiled, placed graph has an anchor. |
| GraphCanvas.PortsHaveAnchors | front/src/domain/handleGraphCanvas.js:340-361 | Any input or output of a node in the table has an anchor once the nodes are placed. |
| GraphCanvas.DrawableIffDefined | front/src/domain/handleGraphCanvas.js:77-176 | For a placed graph whose consumers are inputs and whose defined producers are ports, every edge can be drawn exactly when no producer is undefined. |
| GraphCanvas.CompiledEdgesDrawable | front/src/domain/handleGraphCanvas.js:77-176 | A program with distinct ids and no source file as an operand, compiled and placed, can have all its edges drawn exactly when no producer is undefined. |
| Blocks.Snappable | front/src/components/Blocks.js:105 | Exactly the blocks other than the dragged one, and never more entries than the table has. |
| Blocks.SnappableAppend | front/src/components/Blocks.js:105 | The filter distributes over a split of the table, so with the one-block case the kept blocks stay in table order. |
| Blocks.CandidatesFor | front/src/components/Blocks.js:114-120 | A slot is offered for a block exactly when the slot beside it is within the threshold; there are none exactly when no block is that close. |
| Blocks.Candidates | front/src/components/Blocks.js:107-122 | Over all four directions: a slot is offered exactly when some block has a near slot in some direction. |
| Blocks.CandidatesForAppend | front/src/components/Blocks.js:113-120 | Within one direction, the slots follow the block order: a split table offers the first part's slots, then the second part's. |
| Blocks.CandidatesAppend | front/src/components/Blocks.js:107-122 | Directions are outermost: all slots of earlier directions come before those of later ones, and one direction offers exactly its own slots. |
| Blocks.ReduceClosestIsFirstMinimum | front/src/components/Blocks.js:127-131 | The reduce picks the first candidate whose distance is minimal. |
| Blocks.NoCandidateKeepsPosition | front/src/components/Blocks.js:124 | With no near slot, the requested position is kept. |
| Blocks.SnapIsNearNeighbour | front/src/components/Blocks.js:104-137 | A snapped position lies one block size right of, below, left of or above another block, within an eighth of a block of the request. |
| Blocks.SnapIsClosest | front/src/components/Blocks.js:126-136 | The snapped slot's anchor centre is no farther from the request's centre than any other candidate's. |
| Blocks.AddBlock | front/src/components/Blocks.js:49-60 | The table then holds the new block at the origin under its id. A new id adds one entry; a repeated id replaces its entry in place. Every block with another id is kept where it was. |
| Blocks.MouseDown | front/src/components/Blocks.js:66-76 | A drag starts for the block, with the offset position minus the mouse position; the blocks are unchanged. |
| Blocks.MouseUp | front/src/components/Blocks.js:82-87 | The drag ends with the blocks unchanged, and every later move leaves the state as it is. |
| Blocks.IndexOfBlock | front/src/components/Blocks.js:97-98 | The first block with the id, or none exactly when no block has it. |
| Blocks.MouseMove | front/src/components/Blocks.js:86-102 | A move keeps the drag, the number of blocks, and every block's id and name. |
| Blocks.MouseMoveChangesOnlyDragged | front/src/components/Blocks.js:86-102 | A move changes nothing but the dragged block's position, which becomes the snapped mouse-plus-offset. Without a drag nothing changes. |
| Blocks.GrabOffsetPreserved | front/src/components/Blocks.js:71-93 | After a grab, the unsnapped target moves with the mouse, and returning the mouse to the grab point targets the block's original position. |
| AstIds.AddId | services/graphql/src/resolvers/resolveCodeToAst.js:10-14 | A node takes the next counter value, and the counter ends advanced by the subtree's size. |
| AstIds.AddIdIsConsecutive | services/graphql/src/resolvers/resolveCodeToAst.js:10-14 | The ids handed out, in pre-order, are exactly the consecutive numbers after the start. |
| AstIds.NumberingIsOneToN | services/graphql/src/resolvers/resolveCodeToAst.js:9-15 | A tree of n nodes is numbered 1 to n with the root 1, all distinct. |
| AstIds.ParentBeforeDescendants | services/graphql/src/resolvers/resolveCodeToAst.js:10-14 | Every node's id is smaller than the ids of its descendants. |
| AstIds.AddIdKeepsShape | services/graphql/src/resolvers/resolveCodeToAst.js:10-14 | Erasing the ids gives back the tree: numbering changes nothing else. |
| AstJson.Replace | services/graphql/src/resolvers/resolveCodeToAst.js:24-31 | A flag key becomes undefined, a `kind` is replaced by its table entry, anything else is passed on. |
| AstJson.Property | services/graphql/src/resolvers/resolveCodeToAst.js:22-41 | A flag key or an object already emitted is omitted, and a primitive is emitted as is. Emitting pushes each object once onto the cache, never shrinks it, and produces no flag key at any depth. |
| AstJson.Expand | services/graphql/src/resolvers/resolveCodeToAst.js:22-41 | An object becomes a JSON object and an array a JSON array of the same length, with no flag key anywhere. |
| AstJson.Members | services/graphql/src/resolvers/resolveCodeToAst.js:22-41 | Every output member's key is one of the object's own keys; none is a flag key. |
| AstJson.Elements | services/graphql/src/resolvers/resolveCodeToAst.js:22-41 | An array keeps its length: an omitted element becomes `null`. |
| AstJson.IndexKeysAreOrdinary | services/graphql/src/resolvers/resolveCodeToAst.js:24-29 | An array index key is neither a flag key nor `kind`. |
| AstJson.DeleteText | services/graphql/src/resolvers/resolveCodeToAst.js:18 | Exactly the properties not named `text` are kept, with no more entries than before. |
| AstJson.DeleteTextAppend | services/graphql/src/resolvers/resolveCodeToAst.js:18 | Deleting from a split property list deletes from each part and keeps the parts in order; with the one-property case this keeps every other property in its place, once. |
| AstJson.StringifyDropsFlags | services/graphql/src/resolvers/resolveCodeToAst.js:22-26 | The serialised tree has no flag key at any depth. |
| AstJson.StringifyRootMembers | services/graphql/src/resolvers/resolveCodeToAst.js:18-41 | The root serialises to an object. Each member key is an own key of the root other than `text` and the flags. Every own primitive property other than `text` that the replacer keeps appears with its replaced value. |
| AstJson.FreshRefExpands | services/graphql/src/resolvers/resolveCodeToAst.js:33-40 | An object not yet emitted is pushed onto the cache and expanded. |
| AstJson.MembersKeepPrimitives | services/graphql/src/resolvers/resolveCodeToAst.js:29-40 | A property whose replaced value is primitive appears in the output with that value. |
| AstJson.KindSpelledByName | services/graphql/src/resolvers/resolveCodeToAst.js:29-31 | A `kind` the table names comes out as that name. |
| AstJson.SeenObjectOmitted | services/graphql/src/resolvers/resolveCodeToAst.js:35 | A property holding an object already emitted is omitted and the cache is unchanged. |
| AstJson.ExpandedOnce | services/graphql/src/resolvers/resolveCodeToAst.js:33-38 | Once an object is expanded, it is on the cache, and every later occurrence is omitted. |

## Left out

- Drawing, the animation loop and event registration. The model keeps what they compute: sizes, socket positions, which edges can be drawn and the back button's visibility. It leaves out the canvas calls.
- `positionGraph` draws positions at random. Placement is a parameter (`GraphCanvas.Placement`), and only the fact that it adds positions and keeps nodes is modelled.
- `Math.random` block ids are taken as parameters. Key order follows insertion. An id that is a canonical array index, such as 0, would enumerate first in JavaScript; that ordering is not modelled.
- `Blocks.MouseMoveChangesOnlyDragged` requires the dragged id to be in the table, which holds while a drag is in progress. With a missing id the source would add a position-only entry.
- Numbers are reals, or integers for tree ids and positions. Floating-point rounding is not modelled. The snap distance is compared squared, which orders candidates as the square root does.
- `CanvasGeometry.BoxWidth` counts a label's length in characters, as `label.length` does for the labels the compiler produces. UTF-16 code units are not modelled.
- Hit-testing uses the width and height `drawNode` computes. It does not model a click before the first draw, when those fields are still unset.
- `ts.createSourceFile` and `ts.forEachChild` are TypeScript library calls; the parsed tree is an input. `AstIds.Ast` is a tree whose children are in `forEachChild` order.
- `ts.SyntaxKind` is a parameter (`AstJson.KindTable`). The model applies it to every value under a `kind` key, as the code does.
- `AstJson.Stringify` assumes every reference points into the heap; a dangling reference is omitted. JSON text, `toJSON` and string escaping are not modelled; the output is a JSON value.
- The compiler's tree covers only the kinds its switch names. Every other kind is `SyntaxTree.Other` with only its `statements`, which is all the compiler and `getChildTree` read.
- `ProcessTreeProperties.CompiledGraphWellFormed`, `ProcessTreeProducers.CompiledProducersArePorts` and `GraphCanvas.CompiledEdgesDrawable` take `SyntaxTree.DistinctIds` as a precondition. The resolver's pre-order numbering gives distinct ids (`AstIds`), but the conversion from `AstIds.Ast` to `SyntaxTree.Tree` is not modelled, so no lemma carries that fact across.
- `ProcessTreeProducers.CompiledProducersArePorts` also assumes no operand is a whole source file. A source file's result is its own node id, which no node is stored under, so such an edge would have no anchor. The parser does not produce that shape.
- `ProcessTreeCases.BinaryExpressionCase` states only that the left operand's port is among the left input's producers. With repeated ids a later visit may wire the same input again; `ProcessTreeCases.BinaryWiredOnce` gives the exact list when the wired ids are fresh.
- `ProcessTreeCases.BinaryExpressionCase` and `ProcessTreeCases.ReturnStatementCase` show only that the node's id is in the table. With repeated ids an operand's visit may overwrite that entry; `ProcessTreeProducers.BinaryNodeStored` and `ProcessTreeProducers.ReturnNodeStored` show the node itself is stored when the emitted ids are distinct and fresh.
- `SyntaxTree.FunctionDeclaration` parameters are taken to be plain identifiers (`SyntaxTree.Param` holds a name). A destructured parameter such as `{a}` has a binding pattern without `escapedText`; the source would give its port the id `undefined_<id>` and an undefined label, which the model does not represent.
- `SyntaxTree.Other` is meant for kinds outside the compiler's switch. The type does not forbid an `Other` whose kind is one the switch names; `ProcessTreeCases.OtherKindCase` requires the kind to be outside `SyntaxTree.SwitchKinds`, and the parser never produces such a node.
- Error texts (`ProcessTree.NamelessError`, the null-tree and missing-import messages in `GraphCanvas`) stand for the kind of error the JavaScript engine raises; its exact wording varies by engine and is not modelled. The compiler's own messages (`Identifier not found: ...`, `Edge extremity not found: ...`) are the source's.
- `Nodes.js`, `Solids.js`, `Block.js`, the React scenes, the GraphQL server glue and the client setup are not part of this model.

## Findings

| source | as written | input that shows it | evidently intended | confidence | as-written member | corrected member |
|---|---|---|---|---|---|---|
| front/src/domain/handleGraphCanvas.js:2 | `processTree` is imported as the default export of `./processTree`, which exports it only by name, so the binding is undefined and `parseTree` throws | any non-null tree, such as an empty source file | the named import `{ processTree }` | high, not executed | GraphCanvas.ParseTreeAsWritten | GraphCanvas.ParseTree |
