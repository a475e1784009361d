/** The resolver's `addId`: a counter threaded through a pre-order walk of
    the TypeScript syntax tree, incremented before each node takes it. The
    tree is generic: a kind and the children `forEachChild` visits, in
    order. */
module AstIds {
  import opened SyntaxTree

  datatype Ast = Ast(kind: string, children: seq<Ast>)

  datatype NumberedAst = NumberedAst(id: nat, kind: string, children: seq<NumberedAst>)

  function Size(t: Ast): (n: nat)
    ensures n >= 1
    decreases t
  {
    1 + SizeAll(t.children)
  }

  function SizeAll(ts: seq<Ast>): nat
    decreases ts
  {
    if |ts| == 0 then 0 else Size(ts[0]) + SizeAll(ts[1..])
  }

  /** `addId(node)` with the counter at `nextId`: the node takes
      `nextId + 1`, then its children are numbered in order. Returns the
      numbered tree and the counter afterwards. */
  function AddId(t: Ast, nextId: nat): (r: (NumberedAst, nat))
    ensures r.0.id == nextId + 1
    ensures r.1 == nextId + Size(t)
    decreases t
  {
    var id := nextId + 1;
    var (children, last) := AddIdAll(t.children, id);
    (NumberedAst(id, t.kind, children), last)
  }

  function AddIdAll(ts: seq<Ast>, nextId: nat): (r: (seq<NumberedAst>, nat))
    ensures |r.0| == |ts|
    ensures r.1 == nextId + SizeAll(ts)
    decreases ts
  {
    if |ts| == 0 then ([], nextId)
    else
      var (first, mid) := AddId(ts[0], nextId);
      var (rest, last) := AddIdAll(ts[1..], mid);
      ([first] + rest, last)
  }

  /** The whole tree, numbered from a fresh counter. */
  function Number(t: Ast): NumberedAst {
    AddId(t, 0).0
  }

  /** Ids in pre-order. */
  function Ids(t: NumberedAst): seq<nat>
    decreases t
  {
    [t.id] + IdsAll(t.children)
  }

  function IdsAll(ts: seq<NumberedAst>): seq<nat>
    decreases ts
  {
    if |ts| == 0 then [] else Ids(ts[0]) + IdsAll(ts[1..])
  }

  /** The numbering forgotten: the tree it was computed from. */
  function Erase(t: NumberedAst): Ast
    decreases t
  {
    Ast(t.kind, EraseAll(t.children))
  }

  function EraseAll(ts: seq<NumberedAst>): (r: seq<Ast>)
    ensures |r| == |ts|
    decreases ts
  {
    if |ts| == 0 then [] else [Erase(ts[0])] + EraseAll(ts[1..])
  }

  /** `[from, from + 1, ..., from + n - 1]`. */
  function Range(from: nat, n: nat): (r: seq<nat>)
    ensures |r| == n && forall i :: 0 <= i < n ==> r[i] == from + i
    decreases n
  {
    if n == 0 then [] else [from] + Range(from + 1, n - 1)
  }

  lemma RangeSplit(from: nat, a: nat, b: nat)
    ensures Range(from, a) + Range(from + a, b) == Range(from, a + b)
  {
    var joined := Range(from, a) + Range(from + a, b);
    forall i | 0 <= i < a + b ensures joined[i] == Range(from, a + b)[i] {
      if i >= a { assert joined[i] == Range(from + a, b)[i - a]; }
    }
  }

  /** Numbering from `nextId` hands out exactly the ids `nextId + 1` to
      `nextId + Size(t)`, in pre-order. */
  lemma {:induction false} AddIdIsConsecutive(t: Ast, nextId: nat)
    ensures Ids(AddId(t, nextId).0) == Range(nextId + 1, Size(t))
    decreases t
  {
    AddIdAllIsConsecutive(t.children, nextId + 1);
    assert Range(nextId + 1, Size(t)) == [nextId + 1] + Range(nextId + 2, SizeAll(t.children));
  }

  lemma {:induction false} AddIdAllIsConsecutive(ts: seq<Ast>, nextId: nat)
    ensures IdsAll(AddIdAll(ts, nextId).0) == Range(nextId + 1, SizeAll(ts))
    decreases ts
  {
    if |ts| > 0 {
      var (first, mid) := AddId(ts[0], nextId);
      var (rest, last) := AddIdAll(ts[1..], mid);
      AddIdIsConsecutive(ts[0], nextId);
      AddIdAllIsConsecutive(ts[1..], mid);
      assert AddIdAll(ts, nextId).0 == [first] + rest;
      assert ([first] + rest)[0] == first && ([first] + rest)[1..] == rest;
      RangeSplit(nextId + 1, Size(ts[0]), SizeAll(ts[1..]));
    }
  }

  /** A tree of `n` nodes gets the distinct ids 1 to `n`, the root 1. */
  lemma NumberingIsOneToN(t: Ast)
    ensures Number(t).id == 1
    ensures Ids(Number(t)) == Range(1, Size(t))
    ensures Distinct(Ids(Number(t)))
  {
    AddIdIsConsecutive(t, 0);
  }

  /** Every node's id is smaller than the ids of all its descendants. */
  lemma {:induction false} ParentBeforeDescendants(t: Ast, nextId: nat)
    ensures var n := AddId(t, nextId).0;
            forall x :: x in IdsAll(n.children) ==> n.id < x
  {
    var n := AddId(t, nextId).0;
    AddIdIsConsecutive(t, nextId);
    assert Ids(n) == [n.id] + IdsAll(n.children);
    forall x | x in IdsAll(n.children) ensures n.id < x {
      var i :| 0 <= i < |IdsAll(n.children)| && IdsAll(n.children)[i] == x;
      assert Ids(n)[i + 1] == x;
    }
  }

  /** Numbering changes nothing but the ids. */
  lemma {:induction false} AddIdKeepsShape(t: Ast, nextId: nat)
    ensures Erase(AddId(t, nextId).0) == t
    decreases t
  {
    AddIdAllKeepsShape(t.children, nextId + 1);
  }

  lemma {:induction false} AddIdAllKeepsShape(ts: seq<Ast>, nextId: nat)
    ensures EraseAll(AddIdAll(ts, nextId).0) == ts
    decreases ts
  {
    if |ts| > 0 {
      var (first, mid) := AddId(ts[0], nextId);
      var (rest, last) := AddIdAll(ts[1..], mid);
      AddIdKeepsShape(ts[0], nextId);
      AddIdAllKeepsShape(ts[1..], mid);
      assert AddIdAll(ts, nextId).0 == [first] + rest;
      assert ([first] + rest)[0] == first && ([first] + rest)[1..] == rest;
      assert ts == [ts[0]] + ts[1..];
    }
  }
}
