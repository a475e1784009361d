/** The parsed program the graph compiler walks: the JSON syntax tree the
    code-to-AST resolver produces, restricted to the kinds the compiler's
    switch distinguishes. Every node carries its numeric `id` and its source
    position `pos`; `Other` stands for every kind outside the switch (an
    `ExpressionStatement`, a literal, a `Block`, ...), keeping only the
    `statements` array that subtree lookup descends into. */
module SyntaxTree {
  import opened Wrappers

  /** A `Parameter` node: its id, position and the `escapedText` of its name. */
  datatype Param = Param(id: nat, pos: int, name: string)

  datatype Tree =
    | SourceFile(id: nat, pos: int, statements: seq<Tree>)
    | Identifier(id: nat, pos: int, escapedText: string)
      /** `name` is the `escapedText` of the name, absent for an anonymous
          `export default function`. `body` is `body.statements`; an absent
          body is the empty list, which is the default the compiler
          destructures with. */
    | FunctionDeclaration(id: nat, pos: int, name: Option<string>, parameters: seq<Param>, body: seq<Tree>)
    | ReturnStatement(id: nat, pos: int, expression: Option<Tree>)
      /** `operatorKind` is the kind name of `operatorToken`. */
    | BinaryExpression(id: nat, pos: int, left: Tree, operatorKind: string, right: Tree)
    | Other(id: nat, pos: int, kind: string, statements: seq<Tree>)

  /** The `kind` string of a node, as the serialised tree spells it. */
  function KindName(t: Tree): string {
    match t
    case SourceFile(_, _, _) => "SourceFile"
    case Identifier(_, _, _) => "Identifier"
    case FunctionDeclaration(_, _, _, _, _) => "FunctionDeclaration"
    case ReturnStatement(_, _, _) => "ReturnStatement"
    case BinaryExpression(_, _, _, _, _) => "BinaryExpression"
    case Other(_, _, kind, _) => kind
  }

  /** The kinds the compiler's switch has a case for. An `Other` node
      stands for a kind outside it, so it never carries one of these. */
  const SwitchKinds: set<string> := {"SourceFile", "Identifier", "FunctionDeclaration", "ReturnStatement", "BinaryExpression"}

  /** A node's kind is outside the switch exactly when the node is an
      `Other`, so the switch and the constructors agree on every node. */
  lemma KindNameDispatches(t: Tree)
    requires t.Other? ==> t.kind !in SwitchKinds
    ensures KindName(t) in SwitchKinds <==> !t.Other?
  {
  }

  /** The `statements` array of a node; kinds without one give the empty
      list (a function's statements sit under its `body`, not here). */
  function Statements(t: Tree): seq<Tree> {
    match t
    case SourceFile(_, _, sts) => sts
    case Other(_, _, _, sts) => sts
    case _ => []
  }

  /** Every numeric id in the tree, parameters included, in pre-order. */
  function TreeIds(t: Tree): seq<nat>
    decreases t
  {
    match t
    case SourceFile(id, _, sts) => [id] + TreeIdsAll(sts)
    case Identifier(id, _, _) => [id]
    case FunctionDeclaration(id, _, _, ps, body) => [id] + seq(|ps|, i requires 0 <= i < |ps| => ps[i].id) + TreeIdsAll(body)
    case ReturnStatement(id, _, e) => [id] + (if e.Some? then TreeIds(e.value) else [])
    case BinaryExpression(id, _, l, _, r) => [id] + TreeIds(l) + TreeIds(r)
    case Other(id, _, _, sts) => [id] + TreeIdsAll(sts)
  }

  function TreeIdsAll(ts: seq<Tree>): seq<nat>
    decreases ts
  {
    if |ts| == 0 then [] else TreeIds(ts[0]) + TreeIdsAll(ts[1..])
  }

  predicate Distinct<T(==)>(s: seq<T>) {
    forall i, j :: 0 <= i < j < |s| ==> s[i] != s[j]
  }

  /** No two nodes of the tree share a numeric id. The resolver's pre-order
      numbering gives distinct ids on its own tree type (`AstIds`); lemmas
      here take this predicate as a precondition. */
  predicate DistinctIds(t: Tree) {
    Distinct(TreeIds(t))
  }

  lemma DistinctConcat<T>(a: seq<T>, b: seq<T>)
    requires Distinct(a + b)
    ensures Distinct(a) && Distinct(b)
    ensures forall x :: x in a ==> x !in b
  {
    forall i, j | 0 <= i < |a| && 0 <= j < |b|
      ensures a[i] != b[j]
    {
      assert (a + b)[i] == a[i] && (a + b)[|a| + j] == b[j];
    }
    forall i, j | 0 <= i < j < |b|
      ensures b[i] != b[j]
    {
      assert (a + b)[|a| + i] == b[i] && (a + b)[|a| + j] == b[j];
    }
    forall i, j | 0 <= i < j < |a|
      ensures a[i] != a[j]
    {
      assert (a + b)[i] == a[i] && (a + b)[j] == a[j];
    }
  }

  lemma DistinctJoin<T>(a: seq<T>, b: seq<T>)
    requires Distinct(a) && Distinct(b)
    requires forall x :: x in a ==> x !in b
    ensures Distinct(a + b)
  {
    forall i, j | 0 <= i < j < |a + b|
      ensures (a + b)[i] != (a + b)[j]
    {
      if j < |a| {
        assert (a + b)[i] == a[i] && (a + b)[j] == a[j];
      } else if i >= |a| {
        assert (a + b)[i] == b[i - |a|] && (a + b)[j] == b[j - |a|];
      } else {
        assert (a + b)[i] == a[i] && (a + b)[j] == b[j - |a|];
        assert a[i] in a;
      }
    }
  }
}
