/** The resolver's serialisation of the syntax tree: `JSON.stringify` with
    a replacer that drops three flag keys, spells `kind` by name, and drops
    every object it has already emitted. Objects live in a heap and are
    referred to by reference, so shared and cyclic structure is
    expressible; the replacer's `cache` is the list of references emitted
    so far. */
module AstJson {
  import opened Wrappers
  import opened PortIds
  import opened SyntaxTree

  /** A JavaScript value as the replacer sees it. */
  datatype Value = Null | Bool(b: bool) | Number(n: int) | Str(s: string) | Ref(ref: nat)

  /** A heap object: a plain object with its own properties in order, or
      an array. */
  datatype Obj = Record(fields: seq<(string, Value)>) | List(items: seq<Value>)

  type Heap = map<nat, Obj>

  datatype Json =
    | JNull
    | JBool(b: bool)
    | JNumber(n: int)
    | JString(s: string)
    | JObject(members: seq<(string, Json)>)
    | JArray(elements: seq<Json>)

  /** `ts.SyntaxKind[value]`, the kind-name table, taken as a parameter;
      `None` is an absent entry (`undefined`). */
  type KindTable = Value -> Option<Value>

  /** The keys the replacer discards. */
  predicate Dropped(key: string) {
    key == "flags" || key == "transformFlags" || key == "modifierFlagsCache"
  }

  /** No member of any object in the output has a discarded key. */
  predicate NoDroppedKeys(j: Json) {
    match j
    case JObject(ms) => forall i :: 0 <= i < |ms| ==> !Dropped(ms[i].0) && NoDroppedKeys(ms[i].1)
    case JArray(es) => forall i :: 0 <= i < |es| ==> NoDroppedKeys(es[i])
    case _ => true
  }

  function Primitive(v: Value): Json
    requires !v.Ref?
  {
    match v
    case Null => JNull
    case Bool(b) => JBool(b)
    case Number(n) => JNumber(n)
    case Str(s) => JString(s)
  }

  function Elems(s: seq<nat>): set<nat> {
    set x | x in s
  }

  /** Heap objects not yet emitted: the serialisation's termination measure. */
  ghost function Unseen(heap: Heap, cache: seq<nat>): nat {
    |heap.Keys - Elems(cache)|
  }

  lemma SubsetCard(a: set<nat>, b: set<nat>)
    requires a <= b
    ensures |a| <= |b|
    decreases |a|
  {
    if a != {} {
      var x :| x in a;
      SubsetCard(a - {x}, b - {x});
    }
  }

  lemma UnseenGrows(heap: Heap, c1: seq<nat>, c2: seq<nat>)
    requires c1 <= c2
    ensures Unseen(heap, c2) <= Unseen(heap, c1)
  {
    assert forall x :: x in c1 ==> x in c2 by {
      forall x | x in c1 ensures x in c2 {
        var i :| 0 <= i < |c1| && c1[i] == x;
        assert c2[i] == x;
      }
    }
    SubsetCard(heap.Keys - Elems(c2), heap.Keys - Elems(c1));
  }

  lemma UnseenShrinks(heap: Heap, cache: seq<nat>, r: nat)
    requires r in heap && r !in cache
    ensures Unseen(heap, cache + [r]) < Unseen(heap, cache)
  {
    assert heap.Keys - Elems(cache + [r]) == (heap.Keys - Elems(cache)) - {r};
  }

  /** The cache only grows, by references to heap objects not in it
      before, each pushed once. */
  ghost predicate CacheGrows(heap: Heap, cache: seq<nat>, cache': seq<nat>) {
    && cache <= cache'
    && (forall i :: |cache| <= i < |cache'| ==> cache'[i] in heap && cache'[i] !in cache)
    && (Distinct(cache) ==> Distinct(cache'))
    && Unseen(heap, cache') <= Unseen(heap, cache)
  }

  lemma CacheGrowsRefl(heap: Heap, cache: seq<nat>)
    ensures CacheGrows(heap, cache, cache)
  {
  }

  lemma CacheGrowsTrans(heap: Heap, c1: seq<nat>, c2: seq<nat>, c3: seq<nat>)
    requires CacheGrows(heap, c1, c2) && CacheGrows(heap, c2, c3)
    ensures CacheGrows(heap, c1, c3)
  {
    forall i | |c1| <= i < |c3| ensures c3[i] in heap && c3[i] !in c1 {
      if i < |c2| {
        assert c3[i] == c2[i];
      } else {
        assert c3[i] !in c2;
      }
    }
  }

  lemma CachePush(heap: Heap, cache: seq<nat>, r: nat)
    requires r in heap && r !in cache
    ensures CacheGrows(heap, cache, cache + [r])
    ensures Unseen(heap, cache + [r]) < Unseen(heap, cache)
  {
    UnseenShrinks(heap, cache, r);
  }

  /** The replacer's treatment of the value before the cache test: the
      flag keys become `undefined`, a `kind` is looked up by name, anything
      else is passed on. */
  function Replace(kinds: KindTable, key: string, v: Value): (r: Option<Value>)
    ensures Dropped(key) ==> r.None?
    ensures !Dropped(key) && key != "kind" ==> r == Some(v)
    ensures key == "kind" ==> r == kinds(v)
  {
    if Dropped(key) then None
    else if key == "kind" then kinds(v)
    else Some(v)
  }

  /** `SerializeJSONProperty` with the replacer, for the property `key`
      holding `v`: `None` is `undefined`, which an object omits. */
  function Property(heap: Heap, kinds: KindTable, cache: seq<nat>, key: string, v: Value): (r: (Option<Json>, seq<nat>))
    ensures CacheGrows(heap, cache, r.1)
    ensures r.0.Some? ==> NoDroppedKeys(r.0.value)
    ensures Dropped(key) ==> r == (None, cache)
    ensures var w := Replace(kinds, key, v);
            && (w.None? ==> r == (None, cache))
            && (w.Some? && !w.value.Ref? ==> r == (Some(Primitive(w.value)), cache))
            && (w.Some? && w.value.Ref? && w.value.ref in cache ==> r == (None, cache))
    decreases Unseen(heap, cache), 0, 0
  {
    var mapped := Replace(kinds, key, v);
    if mapped.None? then (None, cache)
    else if !mapped.value.Ref? then (Some(Primitive(mapped.value)), cache)
    else
      var ref := mapped.value.ref;
      if ref in cache || ref !in heap then (None, cache)
      else
        CachePush(heap, cache, ref);
        var r := Expand(heap, kinds, cache + [ref], heap[ref]);
        CacheGrowsTrans(heap, cache, cache + [ref], r.1);
        r
  }

  /** An object's serialisation: a JSON object or array of its members. */
  function Expand(heap: Heap, kinds: KindTable, cache: seq<nat>, o: Obj): (r: (Option<Json>, seq<nat>))
    ensures CacheGrows(heap, cache, r.1)
    ensures r.0.Some? && NoDroppedKeys(r.0.value)
    ensures o.Record? ==> r.0.value.JObject?
    ensures o.List? ==> r.0.value.JArray? && |r.0.value.elements| == |o.items|
    decreases Unseen(heap, cache), 2, 0
  {
    match o
    case Record(fields) =>
      var (ms, c) := Members(heap, kinds, cache, fields);
      (Some(JObject(ms)), c)
    case List(items) =>
      var (es, c) := Elements(heap, kinds, cache, items, 0);
      (Some(JArray(es)), c)
  }

  function KeysOf(fields: seq<(string, Value)>): set<string> {
    set j | 0 <= j < |fields| :: fields[j].0
  }

  /** `SerializeJSONObject`: each own property in order, omitted when the
      replacer makes it `undefined`. */
  function Members(heap: Heap, kinds: KindTable, cache: seq<nat>, fields: seq<(string, Value)>): (r: (seq<(string, Json)>, seq<nat>))
    ensures CacheGrows(heap, cache, r.1)
    ensures NoDroppedKeys(JObject(r.0))
    ensures forall i :: 0 <= i < |r.0| ==> r.0[i].0 in KeysOf(fields)
    decreases Unseen(heap, cache), 1, |fields|
  {
    if |fields| == 0 then ([], cache)
    else
      var p := Property(heap, kinds, cache, fields[0].0, fields[0].1);
      var q := Members(heap, kinds, p.1, fields[1..]);
      CacheGrowsTrans(heap, cache, p.1, q.1);
      var head := if p.0.Some? then [(fields[0].0, p.0.value)] else [];
      MembersCons(head, q.0, fields, head + q.0);
      (head + q.0, q.1)
  }

  lemma MembersCons(head: seq<(string, Json)>, rest: seq<(string, Json)>, fields: seq<(string, Value)>, ms: seq<(string, Json)>)
    requires |fields| > 0 && ms == head + rest
    requires |head| <= 1 && (|head| == 1 ==> head[0].0 == fields[0].0 && !Dropped(head[0].0) && NoDroppedKeys(head[0].1))
    requires NoDroppedKeys(JObject(rest))
    requires forall i :: 0 <= i < |rest| ==> rest[i].0 in KeysOf(fields[1..])
    ensures NoDroppedKeys(JObject(ms))
    ensures forall i :: 0 <= i < |ms| ==> ms[i].0 in KeysOf(fields)
  {
    forall i | 0 <= i < |ms| ensures ms[i].0 in KeysOf(fields) {
      if i >= |head| {
        assert ms[i] == rest[i - |head|];
        var j :| 0 <= j < |fields[1..]| && fields[1..][j].0 == rest[i - |head|].0;
        assert fields[j + 1] == fields[1..][j];
      } else {
        assert ms[i] == head[0];
        assert fields[0].0 == ms[i].0;
      }
    }
    forall i | 0 <= i < |ms| ensures !Dropped(ms[i].0) && NoDroppedKeys(ms[i].1) {
      if i >= |head| {
        assert ms[i] == rest[i - |head|];
      }
    }
  }

  /** `SerializeJSONArray`: the replacer is called with the index as the
      key, and an `undefined` element becomes `null`. */
  function Elements(heap: Heap, kinds: KindTable, cache: seq<nat>, items: seq<Value>, index: nat): (r: (seq<Json>, seq<nat>))
    ensures CacheGrows(heap, cache, r.1)
    ensures |r.0| == |items|
    ensures NoDroppedKeys(JArray(r.0))
    decreases Unseen(heap, cache), 1, |items|
  {
    if |items| == 0 then ([], cache)
    else
      var p := Property(heap, kinds, cache, NatToString(index), items[0]);
      var q := Elements(heap, kinds, p.1, items[1..], index + 1);
      CacheGrowsTrans(heap, cache, p.1, q.1);
      var e := if p.0.Some? then p.0.value else JNull;
      ElementsCons(e, q.0);
      ([e] + q.0, q.1)
  }

  lemma ElementsCons(e: Json, rest: seq<Json>)
    requires NoDroppedKeys(e) && NoDroppedKeys(JArray(rest))
    ensures NoDroppedKeys(JArray([e] + rest))
  {
    var es := [e] + rest;
    forall i | 0 <= i < |es| ensures NoDroppedKeys(es[i]) {
      if i > 0 {
        assert es[i] == rest[i - 1];
      }
    }
  }

  /** An index key is all digits, so it is neither discarded nor `kind`. */
  lemma IndexKeysAreOrdinary(index: nat)
    ensures !Dropped(NatToString(index)) && NatToString(index) != "kind"
  {
    var k := NatToString(index);
    assert IsDigit(k[0]);
  }

  /** `delete sourceFile.text`: the root's own `text` property removed. */
  function DeleteText(fields: seq<(string, Value)>): (r: seq<(string, Value)>)
    ensures forall i :: 0 <= i < |r| ==> r[i].0 != "text" && r[i] in fields
    ensures forall i :: 0 <= i < |fields| && fields[i].0 != "text" ==> fields[i] in r
    ensures |r| <= |fields|
  {
    if |fields| == 0 then []
    else (if fields[0].0 == "text" then [] else [fields[0]]) + DeleteText(fields[1..])
  }

  /** `delete` removes a property in place: deleting from a split field
      list deletes from each part and keeps the parts in order. With the
      one-field case the contract fixes, this pins the kept properties to
      their original order, each once. */
  lemma {:induction false} DeleteTextAppend(a: seq<(string, Value)>, b: seq<(string, Value)>)
    ensures DeleteText(a + b) == DeleteText(a) + DeleteText(b)
    decreases |a|
  {
    if |a| > 0 {
      var head := if a[0].0 == "text" then [] else [a[0]];
      assert (a + b)[0] == a[0];
      assert (a + b)[1..] == a[1..] + b;
      DeleteTextAppend(a[1..], b);
      calc {
        DeleteText(a + b);
        head + DeleteText(a[1..] + b);
        head + (DeleteText(a[1..]) + DeleteText(b));
        (head + DeleteText(a[1..])) + DeleteText(b);
        DeleteText(a) + DeleteText(b);
      }
    } else {
      assert a + b == b;
    }
  }

  /** The resolver's result for the source file at `root`, `None` when the
      reference is not in the heap. */
  function Stringify(heap: Heap, kinds: KindTable, root: nat): Option<Json> {
    if root !in heap then None
    else
      var o := heap[root];
      var heap' := if o.Record? then heap[root := Record(DeleteText(o.fields))] else heap;
      Property(heap', kinds, [], "", Ref(root)).0
  }

  /** The output never carries a discarded key. */
  lemma StringifyDropsFlags(heap: Heap, kinds: KindTable, root: nat)
    ensures Stringify(heap, kinds, root).Some? ==> NoDroppedKeys(Stringify(heap, kinds, root).value)
  {
  }

  /** The root object's members come from its own properties other than
      `text` and the flags, and every primitive one the replacer keeps is
      there with its replaced value. */
  lemma StringifyRootMembers(heap: Heap, kinds: KindTable, root: nat)
    requires root in heap && heap[root].Record?
    ensures Stringify(heap, kinds, root).Some? && Stringify(heap, kinds, root).value.JObject?
    ensures var ms := Stringify(heap, kinds, root).value.members;
            forall i :: 0 <= i < |ms| ==> ms[i].0 != "text" && !Dropped(ms[i].0) && ms[i].0 in KeysOf(heap[root].fields)
    ensures var ms := Stringify(heap, kinds, root).value.members;
            var fields := heap[root].fields;
            forall j :: 0 <= j < |fields| && fields[j].0 != "text" && Replace(kinds, fields[j].0, fields[j].1).Some?
                        && !Replace(kinds, fields[j].0, fields[j].1).value.Ref?
                        ==> (fields[j].0, Primitive(Replace(kinds, fields[j].0, fields[j].1).value)) in ms
  {
    var own := heap[root].fields;
    var fields := DeleteText(own);
    var heap' := heap[root := Record(fields)];
    StringifyRootUnfolds(heap, kinds, root);
    var ms := Members(heap', kinds, [root], fields).0;
    KeysOfDeleteText(own, ms);
    DeleteTextKeepsPrimitives(heap', kinds, [root], own);
  }

  /** Every key drawn from the fields left after deleting `text` is an
      own key other than `text`. */
  lemma KeysOfDeleteText(own: seq<(string, Value)>, ms: seq<(string, Json)>)
    requires forall i :: 0 <= i < |ms| ==> ms[i].0 in KeysOf(DeleteText(own))
    ensures forall i :: 0 <= i < |ms| ==> ms[i].0 != "text" && ms[i].0 in KeysOf(own)
  {
    var fields := DeleteText(own);
    forall i | 0 <= i < |ms| ensures ms[i].0 != "text" && ms[i].0 in KeysOf(own) {
      var j :| 0 <= j < |fields| && fields[j].0 == ms[i].0;
      var j' :| 0 <= j' < |own| && own[j'] == fields[j];
    }
  }

  /** Serialising the fields left after deleting `text` keeps every
      primitive own property but `text`. */
  lemma DeleteTextKeepsPrimitives(heap: Heap, kinds: KindTable, cache: seq<nat>, own: seq<(string, Value)>)
    ensures var ms := Members(heap, kinds, cache, DeleteText(own)).0;
            forall j :: 0 <= j < |own| && own[j].0 != "text" && Replace(kinds, own[j].0, own[j].1).Some?
                        && !Replace(kinds, own[j].0, own[j].1).value.Ref?
                        ==> (own[j].0, Primitive(Replace(kinds, own[j].0, own[j].1).value)) in ms
  {
    var fields := DeleteText(own);
    forall j | 0 <= j < |own| && own[j].0 != "text" && Replace(kinds, own[j].0, own[j].1).Some?
               && !Replace(kinds, own[j].0, own[j].1).value.Ref?
      ensures (own[j].0, Primitive(Replace(kinds, own[j].0, own[j].1).value)) in Members(heap, kinds, cache, fields).0
    {
      var j' :| 0 <= j' < |fields| && fields[j'] == own[j];
      MembersKeepPrimitives(heap, kinds, cache, fields, j', own[j].0, Primitive(Replace(kinds, own[j].0, own[j].1).value));
    }
  }

  /** The root record is expanded first, with `text` deleted. */
  lemma StringifyRootUnfolds(heap: Heap, kinds: KindTable, root: nat)
    requires root in heap && heap[root].Record?
    ensures var fields := DeleteText(heap[root].fields);
            Stringify(heap, kinds, root) == Some(JObject(Members(heap[root := Record(fields)], kinds, [root], fields).0))
  {
    var fields := DeleteText(heap[root].fields);
    var heap' := heap[root := Record(fields)];
    assert Stringify(heap, kinds, root) == Property(heap', kinds, [], "", Ref(root)).0;
    FreshRefExpands(heap', kinds, [], "", root);
    assert [] + [root] == [root];
  }

  /** A property holding an object not yet emitted expands it. */
  lemma FreshRefExpands(heap: Heap, kinds: KindTable, cache: seq<nat>, key: string, ref: nat)
    requires !Dropped(key) && key != "kind" && ref in heap && ref !in cache
    ensures Property(heap, kinds, cache, key, Ref(ref)) == Expand(heap, kinds, cache + [ref], heap[ref])
  {
  }

  /** A property whose replaced value is primitive is kept, in place in
      the member list: ordinary primitives unchanged, a `kind` as its name. */
  lemma {:induction false} MembersKeepPrimitives(heap: Heap, kinds: KindTable, cache: seq<nat>, fields: seq<(string, Value)>,
                                                 j: nat, key: string, out: Json)
    requires j < |fields| && key == fields[j].0
    requires Replace(kinds, key, fields[j].1).Some? && !Replace(kinds, key, fields[j].1).value.Ref?
    requires out == Primitive(Replace(kinds, key, fields[j].1).value)
    ensures (key, out) in Members(heap, kinds, cache, fields).0
    decreases j
  {
    if j == 0 {
      MembersHeadPrimitive(heap, kinds, cache, fields, key, out);
    } else {
      var p := Property(heap, kinds, cache, fields[0].0, fields[0].1);
      assert fields[1..][j - 1] == fields[j];
      MembersKeepPrimitives(heap, kinds, p.1, fields[1..], j - 1, key, out);
      MembersKeepTail(heap, kinds, cache, fields, (key, out));
    }
  }

  /** The first field, when its replaced value is primitive, is emitted first. */
  lemma MembersHeadPrimitive(heap: Heap, kinds: KindTable, cache: seq<nat>, fields: seq<(string, Value)>, key: string, out: Json)
    requires |fields| > 0 && key == fields[0].0
    requires Replace(kinds, key, fields[0].1).Some? && !Replace(kinds, key, fields[0].1).value.Ref?
    requires out == Primitive(Replace(kinds, key, fields[0].1).value)
    ensures |Members(heap, kinds, cache, fields).0| > 0 && Members(heap, kinds, cache, fields).0[0] == (key, out)
  {
  }

  /** Every member emitted for the later fields is a member of the whole. */
  lemma MembersKeepTail(heap: Heap, kinds: KindTable, cache: seq<nat>, fields: seq<(string, Value)>, m: (string, Json))
    requires |fields| > 0
    requires m in Members(heap, kinds, Property(heap, kinds, cache, fields[0].0, fields[0].1).1, fields[1..]).0
    ensures m in Members(heap, kinds, cache, fields).0
  {
    var p := Property(heap, kinds, cache, fields[0].0, fields[0].1);
    var q := Members(heap, kinds, p.1, fields[1..]);
    var head := if p.0.Some? then [(fields[0].0, p.0.value)] else [];
    assert Members(heap, kinds, cache, fields).0 == head + q.0;
  }

  /** A numeric `kind` the table names comes out as that name. */
  lemma KindSpelledByName(heap: Heap, kinds: KindTable, cache: seq<nat>, fields: seq<(string, Value)>, j: nat, name: string)
    requires j < |fields| && fields[j].0 == "kind" && kinds(fields[j].1) == Some(Str(name))
    ensures ("kind", JString(name)) in Members(heap, kinds, cache, fields).0
  {
    MembersKeepPrimitives(heap, kinds, cache, fields, j, "kind", JString(name));
  }

  /** A property holding an object already emitted is omitted. */
  lemma SeenObjectOmitted(heap: Heap, kinds: KindTable, cache: seq<nat>, key: string, ref: nat)
    requires !Dropped(key) && key != "kind" && ref in cache
    ensures Property(heap, kinds, cache, key, Ref(ref)) == (None, cache)
  {
  }

  /** An object is emitted at most once: once expanded it is in the cache,
      and the cache keeps it. */
  lemma ExpandedOnce(heap: Heap, kinds: KindTable, cache: seq<nat>, key: string, ref: nat)
    requires !Dropped(key) && key != "kind" && ref in heap && ref !in cache
    ensures var (j, c) := Property(heap, kinds, cache, key, Ref(ref));
            j.Some? && |c| > |cache| && c[|cache|] == ref
            && forall c' :: CacheGrows(heap, c, c') ==> Property(heap, kinds, c', key, Ref(ref)) == (None, c')
  {
    var (j, c) := Property(heap, kinds, cache, key, Ref(ref));
    forall c' | CacheGrows(heap, c, c') ensures Property(heap, kinds, c', key, Ref(ref)) == (None, c') {
      assert c'[|cache|] == c[|cache|];
    }
  }
}
