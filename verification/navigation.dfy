/** The canvas's drill-down history (`currentNodeHierarchy`) and the
    subtree lookup it navigates by. The history is generic in the id type;
    the canvas instantiates it with `NodeKey`, the JavaScript value a
    hierarchy entry holds. */
module Navigation {
  import opened Wrappers
  import opened SyntaxTree

  /** First index of `x` in `h`, as `Array.prototype.indexOf` finds it. */
  function IndexOf<T(==)>(h: seq<T>, x: T): (r: Option<nat>)
    ensures r.Some? ==> r.value < |h| && h[r.value] == x && forall j :: 0 <= j < r.value ==> h[j] != x
    ensures r.None? <==> x !in h
  {
    if |h| == 0 then None
    else if h[0] == x then Some(0)
    else
      var rest := IndexOf(h[1..], x);
      if rest.None? then None else Some(rest.value + 1)
  }

  /** `updateGraph`'s history step: an id not yet on the history is pushed;
      an id already on it truncates the history just after its first
      occurrence. */
  function Navigate<T(==)>(h: seq<T>, target: T): (r: seq<T>)
    ensures |r| > 0 && r[|r| - 1] == target
    ensures target !in h ==> r == h + [target]
    ensures target in h ==> r <= h
    ensures target !in r[..|r| - 1]
    ensures Distinct(h) ==> Distinct(r)
  {
    var i := IndexOf(h, target);
    if i.None? then h + [target] else h[..i.value + 1]
  }

  /** Navigate is pinned down by what its contract says: the result is the
      one prefix of `h + [target]` that ends with its only occurrence of
      `target`. */
  lemma NavigateIsShortestPrefix<T>(h: seq<T>, target: T, r: seq<T>)
    requires r <= h + [target] && |r| > 0 && r[|r| - 1] == target
    requires target !in r[..|r| - 1]
    ensures r == Navigate(h, target)
  {
    var n := Navigate(h, target);
    assert n <= h + [target];
    assert |r| == |n|;
  }

  /** Navigating to the entry already on top leaves the history alone. */
  lemma NavigateIdempotent<T>(h: seq<T>, target: T)
    ensures Navigate(Navigate(h, target), target) == Navigate(h, target)
  {
    var n := Navigate(h, target);
    NavigateIsShortestPrefix(n, target, n);
  }

  /** The back button navigates to the second-to-last entry; on a history
      without duplicates that removes exactly the last entry. */
  lemma BackRemovesLast<T>(h: seq<T>)
    requires |h| > 1 && Distinct(h)
    ensures Navigate(h, h[|h| - 2]) == h[..|h| - 1]
  {
    var r := h[..|h| - 1];
    assert r <= h + [h[|h| - 2]];
    forall j | 0 <= j < |r| - 1 ensures r[j] != h[|h| - 2] {
      assert h[j] != h[|h| - 2];
    }
    NavigateIsShortestPrefix(h, h[|h| - 2], r);
  }

  /** What a hierarchy entry holds: the numeric id the first load passes,
      or the composite string id of a clicked node. JavaScript's `===`
      between a number and a string is false, which the constructor tag
      models. */
  datatype NodeKey = Num(n: nat) | Str(s: string)

  /** `getChildTree`: the tree itself when its id matches, else the first
      match among its `statements`, depth first. */
  function GetChildTree(t: Tree, key: NodeKey): (r: Option<Tree>)
    ensures r.Some? ==> key == Num(r.value.id)
    decreases t
  {
    if Num(t.id) == key then Some(t)
    else
      match t
      case SourceFile(_, _, sts) => FirstChildTree(sts, key)
      case Other(_, _, _, sts) => FirstChildTree(sts, key)
      case _ => None
  }

  function FirstChildTree(ts: seq<Tree>, key: NodeKey): (r: Option<Tree>)
    ensures r.Some? ==> key == Num(r.value.id)
    decreases ts
  {
    if |ts| == 0 then None
    else
      var found := GetChildTree(ts[0], key);
      if found.Some? then found else FirstChildTree(ts[1..], key)
  }

  /** The nodes `getChildTree` can reach, in the order it tries them: the
      tree, then the reachable nodes of each statement in turn. */
  function StatementNodes(t: Tree): seq<Tree>
    decreases t
  {
    [t] + match t
          case SourceFile(_, _, sts) => StatementNodesAll(sts)
          case Other(_, _, _, sts) => StatementNodesAll(sts)
          case _ => []
  }

  function StatementNodesAll(ts: seq<Tree>): seq<Tree>
    decreases ts
  {
    if |ts| == 0 then [] else StatementNodes(ts[0]) + StatementNodesAll(ts[1..])
  }

  /** The first node of a list whose id matches `key`. */
  function FirstWithKey(s: seq<Tree>, key: NodeKey): (r: Option<Tree>)
    ensures r.Some? ==> r.value in s && key == Num(r.value.id)
    ensures r.None? <==> forall i :: 0 <= i < |s| ==> key != Num(s[i].id)
  {
    if |s| == 0 then None
    else if Num(s[0].id) == key then Some(s[0])
    else FirstWithKey(s[1..], key)
  }

  lemma {:induction false} FirstWithKeyConcat(a: seq<Tree>, b: seq<Tree>, key: NodeKey)
    ensures FirstWithKey(a + b, key) == if FirstWithKey(a, key).Some? then FirstWithKey(a, key) else FirstWithKey(b, key)
    decreases |a|
  {
    if |a| > 0 {
      assert (a + b)[0] == a[0];
      assert (a + b)[1..] == a[1..] + b;
      FirstWithKeyConcat(a[1..], b, key);
    } else {
      assert a + b == b;
    }
  }

  /** `getChildTree` returns the first node, in depth-first order over
      `statements`, whose id matches, and null when there is none. */
  lemma {:induction false} GetChildTreeIsFirstMatch(t: Tree, key: NodeKey)
    ensures GetChildTree(t, key) == FirstWithKey(StatementNodes(t), key)
    decreases t
  {
    var rest := match t
                case SourceFile(_, _, sts) => StatementNodesAll(sts)
                case Other(_, _, _, sts) => StatementNodesAll(sts)
                case _ => [];
    assert StatementNodes(t) == [t] + rest;
    assert ([t] + rest)[1..] == rest;
    match t
    case SourceFile(_, _, sts) => FirstChildTreeIsFirstMatch(sts, key);
    case Other(_, _, _, sts) => FirstChildTreeIsFirstMatch(sts, key);
    case _ =>
  }

  lemma {:induction false} FirstChildTreeIsFirstMatch(ts: seq<Tree>, key: NodeKey)
    ensures FirstChildTree(ts, key) == FirstWithKey(StatementNodesAll(ts), key)
    decreases ts
  {
    if |ts| > 0 {
      GetChildTreeIsFirstMatch(ts[0], key);
      FirstChildTreeIsFirstMatch(ts[1..], key);
      FirstWithKeyConcat(StatementNodes(ts[0]), StatementNodesAll(ts[1..]), key);
    }
  }

  /** A string key never matches: tree ids are numbers. */
  lemma StringKeyNeverFound(t: Tree, s: string)
    ensures GetChildTree(t, Str(s)) == None
  {
    GetChildTreeIsFirstMatch(t, Str(s));
  }
}
