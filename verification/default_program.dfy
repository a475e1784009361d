/** The program the editor opens with,

      function sum(a, b) {
        return a + b
      }

    as the resolver numbers it (pre-order, from 1), and what the compiler
    makes of it. Positions are full-start character offsets into that
    text, the end-of-file token sitting after the closing brace. */
module DefaultProgram {
  import opened Wrappers
  import opened PortIds
  import opened SyntaxTree
  import opened ProcessTree

  const SumBinary: Tree :=
    BinaryExpression(10, 29, Identifier(11, 29, "a"), "PlusToken", Identifier(13, 33, "b"))

  const SumReturn: Tree := ReturnStatement(9, 20, Some(SumBinary))

  const SumFunction: Tree :=
    FunctionDeclaration(2, 0, Some("sum"), [Param(4, 13, "a"), Param(6, 15, "b")], [SumReturn])

  const SumFile: Tree :=
    SourceFile(1, 0, [SumFunction, Other(14, 37, "EndOfFileToken", [])])

  /** The scope the body of `sum` is compiled in: its two parameters. */
  const SumScope: seq<Port> := [Port("a_4", 13, "a"), Port("b_6", 15, "b")]

  /** The wiring of `sum`'s body: return <- output, left <- a, right <- b. */
  const SumEdges: Edges :=
    map["left_10" := [Some("a_4")], "right_10" := [Some("b_6")], "return_9" := [Some("return_10")]]

  /** The composite ids the examples use. */
  lemma ExampleIds()
    ensures CreateId("SourceFile", 1) == "SourceFile_1"
    ensures CreateId("FunctionDeclaration", 2) == "FunctionDeclaration_2"
    ensures CreateId("return", 2) == "return_2"
    ensures CreateId("a", 4) == "a_4" && CreateId("b", 6) == "b_6"
    ensures CreateId("ReturnStatement", 9) == "ReturnStatement_9" && CreateId("return", 9) == "return_9"
    ensures CreateId("BinaryExpression", 10) == "BinaryExpression_10"
    ensures CreateId("return", 10) == "return_10"
    ensures CreateId("left", 10) == "left_10" && CreateId("right", 10) == "right_10"
    ensures CreateId("ReturnStatement", 5) == "ReturnStatement_5" && CreateId("return", 5) == "return_5"
  {
    assert NatToString(1) == "1";
    assert NatToString(10) == NatToString(1) + "0";
  }

  lemma SumScopeIsParams()
    ensures ParamPorts(SumFunction.parameters) == SumScope
  {
    ExampleIds();
  }

  /** The nodes of the example, written out. */
  lemma SumNodes()
    ensures FunctionBox(SumFunction) == GraphNode("FunctionDeclaration_2", 0, "sum", "FunctionDeclaration",
                                                  SumScope, [Port("return_2", 0, "return")])
    ensures ArgumentsNode(SumFunction) == GraphNode("FunctionDeclaration_2", 0, "arguments", "FunctionDeclarationArguments",
                                                    [], SumScope)
    ensures ReturnNode(SumReturn) == GraphNode("ReturnStatement_9", 20, "return", "ReturnStatement",
                                               [Port("return_9", 20, "return")], [])
    ensures BinaryNode(SumBinary) == GraphNode("BinaryExpression_10", 29, "PlusToken", "BinaryExpression",
                                               [Port("left_10", 29, "left"), Port("right_10", 33, "right")],
                                               [Port("return_10", 29, "output")])
  {
    ExampleIds();
    SumScopeIsParams();
  }

  /** Compiling the file shows the function as one box with an input per
      parameter and no edges. */
  lemma CompileSumFile()
    ensures Process(SumFile, EmptyGraph, true, []) ==
            Success(Compiled(
              Graph([GraphNode("FunctionDeclaration_2", 0, "sum", "FunctionDeclaration",
                               [Port("a_4", 13, "a"), Port("b_6", 15, "b")],
                               [Port("return_2", 0, "return")])],
                    map[]),
              Some("SourceFile_1")))
  {
    SumFileStatements();
    SumNodes();
    assert NodeId(SumFile) == "SourceFile_1" by {
      ExampleIds();
    }
  }

  /** The file's statements: the function's box, then nothing for the
      end-of-file token. */
  lemma SumFileStatements()
    ensures ProcessAll(SumFile.statements, EmptyGraph, []) == Success(Graph([FunctionBox(SumFunction)], map[]))
  {
    var g1 := Graph([FunctionBox(SumFunction)], map[]);
    assert WithNode(EmptyGraph, FunctionBox(SumFunction)) == g1;
    assert Process(SumFunction, EmptyGraph, false, []) == Success(Compiled(g1, Some(CreateId("return", 2))));
    assert ProcessAll(SumFile.statements[1..], g1, []) == Success(g1) by {
      assert Process(SumFile.statements[1], g1, false, []) == Success(Compiled(g1, None));
      assert ProcessAll(SumFile.statements[2..], g1, []) == Success(g1);
    }
  }

  /** Compiling the function itself gives its arguments node, the return
      node and the addition, wired return <- output, left <- a, right <- b. */
  lemma CompileSumFunction()
    ensures Process(SumFunction, EmptyGraph, true, []) ==
            Success(Compiled(
              Graph([GraphNode("FunctionDeclaration_2", 0, "arguments", "FunctionDeclarationArguments",
                               [], [Port("a_4", 13, "a"), Port("b_6", 15, "b")]),
                     GraphNode("ReturnStatement_9", 20, "return", "ReturnStatement",
                               [Port("return_9", 20, "return")], []),
                     GraphNode("BinaryExpression_10", 29, "PlusToken", "BinaryExpression",
                               [Port("left_10", 29, "left"), Port("right_10", 33, "right")],
                               [Port("return_10", 29, "output")])],
                    map["return_9" := [Some("return_10")],
                        "left_10" := [Some("a_4")],
                        "right_10" := [Some("b_6")]]),
              Some("FunctionDeclaration_2")))
  {
    CompileSumFunctionNodes();
    SumNodes();
    ExampleIds();
    assert SumEdges == map["return_9" := [Some("return_10")], "left_10" := [Some("a_4")], "right_10" := [Some("b_6")]];
  }

  /** The same, with the nodes and the box id still unexpanded. */
  lemma CompileSumFunctionNodes()
    ensures Process(SumFunction, EmptyGraph, true, []) ==
            Success(Compiled(Graph([ArgumentsNode(SumFunction), ReturnNode(SumReturn), BinaryNode(SumBinary)], SumEdges),
                             Some(NodeId(SumFunction))))
  {
    var g1 := Graph([ArgumentsNode(SumFunction)], map[]);
    assert WithNode(EmptyGraph, ArgumentsNode(SumFunction)) == g1;
    assert [] + ParamPorts(SumFunction.parameters) == SumScope by {
      SumScopeIsParams();
    }
    var g := CompileSumBody();
  }

  /** The body, visited after the arguments node is in place. */
  lemma CompileSumBody() returns (g: Graph)
    ensures g == Graph([ArgumentsNode(SumFunction), ReturnNode(SumReturn), BinaryNode(SumBinary)], SumEdges)
    ensures ProcessAll(SumFunction.body, Graph([ArgumentsNode(SumFunction)], map[]), SumScope) == Success(g)
  {
    var g1 := Graph([ArgumentsNode(SumFunction)], map[]);
    assert NodeId(SumReturn) !in NodeIds(g1.nodes) && NodeId(SumBinary) !in NodeIds(g1.nodes) by {
      SumNodes();
      ExampleIds();
      assert g1.nodes[0].id == "FunctionDeclaration_2";
    }
    CompileSumReturn(g1);
    g := Graph(g1.nodes + [ReturnNode(SumReturn), BinaryNode(SumBinary)], SumEdges);
    assert ProcessAll(SumFunction.body[1..], g, SumScope) == Success(g);
  }

  /** The return statement in any graph without its ids and edges: its
      node, then the addition's, then the wire from the addition. */
  lemma CompileSumReturn(g1: Graph)
    requires NodeId(SumReturn) !in NodeIds(g1.nodes) && NodeId(SumBinary) !in NodeIds(g1.nodes)
    requires g1.edges == map[]
    ensures Process(SumReturn, g1, false, SumScope) ==
            Success(Compiled(Graph(g1.nodes + [ReturnNode(SumReturn), BinaryNode(SumBinary)], SumEdges), Some("return_9")))
  {
    var g2 := SumReturnPut(g1);
    CompileSumBinary(g2);
    var c := Process(SumBinary, g2, false, SumScope).value;
    assert Process(SumReturn, g1, false, SumScope) ==
           Success(Compiled(WithEdge(c.graph, CreateId("return", 9), c.port), Some(CreateId("return", 9))));
    ExampleIds();
    SumReturnWire(g1, g2);
  }

  lemma SumReturnPut(g1: Graph) returns (g2: Graph)
    requires NodeId(SumReturn) !in NodeIds(g1.nodes) && NodeId(SumBinary) !in NodeIds(g1.nodes)
    requires g1.edges == map[]
    ensures g2 == WithNode(g1, ReturnNode(SumReturn)) && g2 == Graph(g1.nodes + [ReturnNode(SumReturn)], map[])
    ensures NodeId(SumBinary) !in NodeIds(g2.nodes) && g2.edges == map[]
  {
    g2 := WithNode(g1, ReturnNode(SumReturn));
    ExampleIds();
  }

  lemma SumReturnWire(g1: Graph, g2: Graph)
    requires g2 == Graph(g1.nodes + [ReturnNode(SumReturn)], map[])
    ensures WithEdge(Graph(g2.nodes + [BinaryNode(SumBinary)], map["left_10" := [Some("a_4")], "right_10" := [Some("b_6")]]),
                     "return_9", Some("return_10"))
            == Graph(g1.nodes + [ReturnNode(SumReturn), BinaryNode(SumBinary)], SumEdges)
  {
    assert g2.nodes + [BinaryNode(SumBinary)] == g1.nodes + [ReturnNode(SumReturn), BinaryNode(SumBinary)];
  }

  /** The addition on its own: its node is put, then `a` and `b` are wired
      into its left and right inputs. */
  lemma CompileSumBinary(g2: Graph)
    requires NodeId(SumBinary) !in NodeIds(g2.nodes) && g2.edges == map[]
    ensures Process(SumBinary, g2, false, SumScope) ==
            Success(Compiled(Graph(g2.nodes + [BinaryNode(SumBinary)],
                                   map["left_10" := [Some("a_4")], "right_10" := [Some("b_6")]]),
                             Some("return_10")))
  {
    assert CreateId("left", 10) == "left_10" && CreateId("right", 10) == "right_10" && CreateId("return", 10) == "return_10" by {
      ExampleIds();
    }
    var g3 := Graph(g2.nodes + [BinaryNode(SumBinary)], map[]);
    assert WithNode(g2, BinaryNode(SumBinary)) == g3;
    assert Process(SumBinary.left, g3, false, SumScope) == Success(Compiled(g3, Some("a_4"))) by {
      assert FindRight(SumScope, "a") == Some(0);
    }
    var g4 := Graph(g3.nodes, map["left_10" := [Some("a_4")]]);
    assert WithEdge(g3, "left_10", Some("a_4")) == g4;
    assert Process(SumBinary.right, g4, false, SumScope) == Success(Compiled(g4, Some("b_6"))) by {
      assert FindRight(SumScope, "b") == Some(1);
    }
    assert WithEdge(g4, "right_10", Some("b_6")) == Graph(g3.nodes, map["left_10" := [Some("a_4")], "right_10" := [Some("b_6")]]);
  }

  /** `function f() { return 1 }`: the literal is outside the compiler's
      switch and yields no port, so the return input is wired to nothing. */
  const ReturnOne: Tree :=
    FunctionDeclaration(2, 0, Some("f"), [], [ReturnStatement(5, 14, Some(Other(6, 21, "NumericLiteral", [])))])

  lemma CompileReturnOne()
    ensures Process(ReturnOne, EmptyGraph, true, []).Success?
    ensures Process(ReturnOne, EmptyGraph, true, []).value.graph.edges == map["return_5" := [None]]
  {
    var g1 := Graph([ArgumentsNode(ReturnOne)], map[]);
    assert WithNode(EmptyGraph, ArgumentsNode(ReturnOne)) == g1;
    assert [] + ParamPorts(ReturnOne.parameters) == [];
    var g3 := ReturnOneBody();
    assert ProcessAll(ReturnOne.body, g1, []) == Success(g3);
  }

  /** The return statement after the arguments node: its literal yields
      no port, so `undefined` is wired into `return_5`. */
  lemma ReturnOneBody() returns (g3: Graph)
    ensures g3.edges == map["return_5" := [None]]
    ensures Process(ReturnOne.body[0], Graph([ArgumentsNode(ReturnOne)], map[]), false, []) == Success(Compiled(g3, Some("return_5")))
  {
    ExampleIds();
    var ret := ReturnOne.body[0];
    var g2 := WithNode(Graph([ArgumentsNode(ReturnOne)], map[]), ReturnNode(ret));
    assert g2.edges == map[];
    assert Process(ret.expression.value, g2, false, []) == Success(Compiled(g2, None));
    g3 := WithEdge(g2, "return_5", None);
  }

  /** An unbound name stops the compilation. */
  lemma UnboundNameFails()
    ensures Process(FunctionDeclaration(2, 0, Some("g"), [], [ReturnStatement(5, 14, Some(Identifier(6, 21, "x")))]),
                    EmptyGraph, true, []) == Failure("Identifier not found: x")
  {
  }
}
