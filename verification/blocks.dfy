/** The block editor's drag-and-snap logic: while a block is dragged its
    position follows the mouse, and it snaps beside another block when
    one of that block's four neighbour slots is close enough. */
module Blocks {
  import opened Wrappers

  datatype Point = Point(x: real, y: real)

  /** A block; its id is the random number `addBlock` draws. */
  datatype Block = Block(id: real, name: string, position: Point)

  /** The block table, in insertion order (`Object.values`). */
  type BlockTable = seq<Block>

  const BlockSize: real := 64.0
  const SnapThreshold: real := BlockSize / 8.0

  function Abs(a: real): real {
    if a < 0.0 then -a else a
  }

  /** The four neighbour offsets, in the order they are tried: right,
      below, left, above. */
  const Directions: seq<Point> :=
    [Point(BlockSize, 0.0), Point(0.0, BlockSize), Point(-BlockSize, 0.0), Point(0.0, -BlockSize)]

  /** A candidate slot: where the dragged block would go, and the centre of
      the block it would sit beside. */
  datatype Candidate = Candidate(slot: Point, anchorCenter: Point)

  /** The slot beside `anchor` in direction `d` is within the threshold of
      the requested position on both axes. */
  predicate Near(anchor: Block, d: Point, p: Point) {
    Abs(anchor.position.x + d.x - p.x) <= SnapThreshold && Abs(anchor.position.y + d.y - p.y) <= SnapThreshold
  }

  function CandidateOf(anchor: Block, d: Point): Candidate {
    Candidate(Point(anchor.position.x + d.x, anchor.position.y + d.y),
              Point(anchor.position.x + BlockSize / 2.0, anchor.position.y + BlockSize / 2.0))
  }

  /** The blocks other than the dragged one, in table order. */
  function Snappable(blocks: BlockTable, exclude: real): (r: BlockTable)
    ensures forall b :: b in r <==> b in blocks && b.id != exclude
    ensures |r| <= |blocks|
  {
    if |blocks| == 0 then []
    else (if blocks[0].id != exclude then [blocks[0]] else []) + Snappable(blocks[1..], exclude)
  }

  /** The filter works block by block: the kept blocks of a split table
      are those of the first part followed by those of the second. With the
      one-block case the membership and length clauses fix, this pins the
      kept blocks to their table order. */
  lemma {:induction false} SnappableAppend(a: BlockTable, b: BlockTable, exclude: real)
    ensures Snappable(a + b, exclude) == Snappable(a, exclude) + Snappable(b, exclude)
    decreases |a|
  {
    if |a| > 0 {
      var head := if a[0].id != exclude then [a[0]] else [];
      assert (a + b)[0] == a[0];
      assert (a + b)[1..] == a[1..] + b;
      SnappableAppend(a[1..], b, exclude);
      calc {
        Snappable(a + b, exclude);
        head + Snappable(a[1..] + b, exclude);
        head + (Snappable(a[1..], exclude) + Snappable(b, exclude));
        (head + Snappable(a[1..], exclude)) + Snappable(b, exclude);
        Snappable(a, exclude) + Snappable(b, exclude);
      }
    } else {
      assert a + b == b;
    }
  }

  /** The near slots for one direction, in block order. */
  function CandidatesFor(anchors: BlockTable, d: Point, p: Point): (r: seq<Candidate>)
    ensures forall c :: c in r <==> exists b :: b in anchors && Near(b, d, p) && c == CandidateOf(b, d)
    ensures |r| == 0 <==> forall b :: b in anchors ==> !Near(b, d, p)
    ensures |r| <= |anchors|
  {
    if |anchors| == 0 then []
    else
      var rest := CandidatesFor(anchors[1..], d, p);
      assert forall b :: b in anchors[1..] ==> b in anchors;
      assert forall b :: b in anchors ==> b == anchors[0] || b in anchors[1..];
      (if Near(anchors[0], d, p) then [CandidateOf(anchors[0], d)] else []) + rest
  }

  /** `potentialSnapMetadata`: directions outermost, then blocks. */
  function Candidates(anchors: BlockTable, ds: seq<Point>, p: Point): (r: seq<Candidate>)
    ensures forall c :: c in r <==> exists i, b :: 0 <= i < |ds| && b in anchors && Near(b, ds[i], p) && c == CandidateOf(b, ds[i])
    ensures |r| == 0 <==> forall i, b :: 0 <= i < |ds| && b in anchors ==> !Near(b, ds[i], p)
  {
    if |ds| == 0 then []
    else
      var rest := Candidates(anchors, ds[1..], p);
      assert forall i :: 0 < i < |ds| ==> ds[i] == ds[1..][i - 1];
      CandidatesFor(anchors, ds[0], p) + rest
  }

  /** The slots of one direction follow the block order: a split table
      offers the first part's slots, then the second part's. */
  lemma {:induction false} CandidatesForAppend(a: BlockTable, b: BlockTable, d: Point, p: Point)
    ensures CandidatesFor(a + b, d, p) == CandidatesFor(a, d, p) + CandidatesFor(b, d, p)
    decreases |a|
  {
    if |a| > 0 {
      var head := if Near(a[0], d, p) then [CandidateOf(a[0], d)] else [];
      assert (a + b)[0] == a[0];
      assert (a + b)[1..] == a[1..] + b;
      assert CandidatesFor(a + b, d, p) == head + CandidatesFor(a[1..] + b, d, p);
      assert CandidatesFor(a, d, p) == head + CandidatesFor(a[1..], d, p);
      CandidatesForAppend(a[1..], b, d, p);
    } else {
      assert a + b == b;
    }
  }

  /** Directions are outermost: a split direction list offers all slots of
      the first directions before any of the later ones, and one direction
      offers exactly its own slots. */
  lemma {:induction false} CandidatesAppend(anchors: BlockTable, ds: seq<Point>, es: seq<Point>, d: Point, p: Point)
    ensures Candidates(anchors, ds + es, p) == Candidates(anchors, ds, p) + Candidates(anchors, es, p)
    ensures Candidates(anchors, [d], p) == CandidatesFor(anchors, d, p)
    decreases |ds|
  {
    if |ds| > 0 {
      assert (ds + es)[1..] == ds[1..] + es;
      assert (ds + es)[0] == ds[0];
      CandidatesAppend(anchors, ds[1..], es, d, p);
    } else {
      assert ds + es == es;
    }
    assert [d][1..] == [];
  }

  /** The squared distance between centres; the square root the source
      takes keeps the same order. */
  function Distance2(a: Point, b: Point): real {
    (a.x - b.x) * (a.x - b.x) + (a.y - b.y) * (a.y - b.y)
  }

  /** How far a candidate's anchor centre is from `center`. */
  function Dist(center: Point, c: Candidate): real {
    Distance2(center, c.anchorCenter)
  }

  /** The `reduce` from position `i` on, with `best` the index of the
      current choice (`None` stands for the initial infinite distance): a
      later candidate replaces it only when strictly closer. */
  function ReduceClosest(cs: seq<Candidate>, center: Point, i: nat, best: Option<nat>): (r: Option<nat>)
    requires i <= |cs| && (best.Some? ==> best.value < i)
    ensures best.Some? || i < |cs| ==> r.Some?
    ensures r.Some? ==> r.value < |cs|
    decreases |cs| - i
  {
    if i == |cs| then best
    else
      var next := if best.None? || Dist(center, cs[i]) < Dist(center, cs[best.value]) then Some(i) else best;
      ReduceClosest(cs, center, i + 1, next)
  }

  /** `snapPosition`: the requested position unless some slot is near,
      else the slot whose anchor centre is closest to the dragged block's
      centre. */
  function SnapPosition(blocks: BlockTable, p: Point, exclude: real): Point {
    SnapAmong(Candidates(Snappable(blocks, exclude), Directions, p), p)
  }

  /** The centre of a block whose corner is at `p`. */
  function Center(p: Point): Point {
    Point(p.x + BlockSize / 2.0, p.y + BlockSize / 2.0)
  }

  /** The choice among given candidates: none keeps `p`, else the slot
      the reduce picks. */
  function SnapAmong(cs: seq<Candidate>, p: Point): Point {
    if |cs| == 0 then p
    else cs[ReduceClosest(cs, Center(p), 0, None).value].slot
  }

  /** The first candidate of minimal distance among the first `i`. */
  ghost predicate FirstMinimumUpTo(cs: seq<Candidate>, center: Point, i: nat, k: nat)
    requires k < i <= |cs|
  {
    && (forall j :: 0 <= j < i ==> Dist(center, cs[k]) <= Dist(center, cs[j]))
    && (forall j :: 0 <= j < k ==> Dist(center, cs[j]) > Dist(center, cs[k]))
  }

  /** The reduce picks a candidate at least as close as every other, and
      the first of those on a tie. */
  lemma {:induction false} ReduceClosestIsFirstMinimum(cs: seq<Candidate>, center: Point, i: nat, best: Option<nat>)
    requires i <= |cs| && (best.Some? ==> best.value < i)
    requires best.None? ==> i == 0 && |cs| > 0
    requires best.Some? ==> FirstMinimumUpTo(cs, center, i, best.value)
    ensures ReduceClosest(cs, center, i, best).Some?
    ensures FirstMinimumUpTo(cs, center, |cs|, ReduceClosest(cs, center, i, best).value)
    decreases |cs| - i
  {
    if i < |cs| {
      var next := if best.None? || Dist(center, cs[i]) < Dist(center, cs[best.value]) then Some(i) else best;
      ReduceClosestIsFirstMinimum(cs, center, i + 1, next);
    }
  }

  /** With no near slot the requested position is kept. */
  lemma NoCandidateKeepsPosition(blocks: BlockTable, p: Point, exclude: real)
    requires forall b, i :: b in blocks && b.id != exclude && 0 <= i < |Directions| ==> !Near(b, Directions[i], p)
    ensures SnapPosition(blocks, p, exclude) == p
  {
    var cs := Candidates(Snappable(blocks, exclude), Directions, p);
  }

  /** A snapped position sits exactly one block size to the right, below,
      left or above some other block, within the threshold of the request
      on both axes; and every near slot's anchor is at least as far from
      the dragged block's centre as the chosen one's. */
  lemma SnapIsNearNeighbour(blocks: BlockTable, p: Point, exclude: real)
    ensures var r := SnapPosition(blocks, p, exclude);
            r == p || exists b, i :: && b in blocks && b.id != exclude && 0 <= i < |Directions|
                                     && Near(b, Directions[i], p)
                                     && r == Point(b.position.x + Directions[i].x, b.position.y + Directions[i].y)
    ensures var r := SnapPosition(blocks, p, exclude);
            r != p ==> Abs(r.x - p.x) <= SnapThreshold && Abs(r.y - p.y) <= SnapThreshold
  {
    var cs := Candidates(Snappable(blocks, exclude), Directions, p);
    if |cs| > 0 {
      var k := ReduceClosest(cs, Center(p), 0, None).value;
      var c := cs[k];
      assert SnapPosition(blocks, p, exclude) == c.slot;
      assert c in cs;
      var i, b :| 0 <= i < |Directions| && b in Snappable(blocks, exclude) && Near(b, Directions[i], p) && c == CandidateOf(b, Directions[i]);
      assert b in blocks && b.id != exclude;
      assert c.slot == Point(b.position.x + Directions[i].x, b.position.y + Directions[i].y);
    }
  }

  /** The snapped slot belongs to a candidate no farther than any other
      candidate, and strictly nearer than every earlier one. */
  lemma SnapIsClosest(blocks: BlockTable, p: Point, exclude: real)
    ensures var cs := Candidates(Snappable(blocks, exclude), Directions, p);
            |cs| > 0 ==> exists k :: && 0 <= k < |cs| && SnapPosition(blocks, p, exclude) == cs[k].slot
                                     && FirstMinimumUpTo(cs, Center(p), |cs|, k)
  {
    SnapAmongIsClosest(Candidates(Snappable(blocks, exclude), Directions, p), p);
  }

  lemma SnapAmongIsClosest(cs: seq<Candidate>, p: Point)
    ensures |cs| > 0 ==> exists k :: 0 <= k < |cs| && SnapAmong(cs, p) == cs[k].slot && FirstMinimumUpTo(cs, Center(p), |cs|, k)
  {
    if |cs| > 0 {
      ReduceClosestIsFirstMinimum(cs, Center(p), 0, None);
      var k := ReduceClosest(cs, Center(p), 0, None).value;
      assert SnapAmong(cs, p) == cs[k].slot;
    }
  }

  // ---------------------------------------------------------------------
  // Dragging

  /** `movingBlockMetadata`: the dragged block's id and the grab offset. */
  datatype Drag = Drag(id: real, offsetX: real, offsetY: real)

  datatype EditorState = EditorState(blocks: BlockTable, moving: Option<Drag>)

  /** `addBlock`: `blocks[id] = { id, name, position: origin }`. An id not
      in the table is added last; an id already there (a repeated random
      draw) keeps its place and gets the new block. */
  function AddBlock(s: EditorState, id: real, name: string): (r: EditorState)
    ensures r.moving == s.moving
    ensures var k := IndexOfBlock(r.blocks, id);
            k.Some? && r.blocks[k.value] == Block(id, name, Point(0.0, 0.0))
    ensures IndexOfBlock(s.blocks, id).None? ==> |r.blocks| == |s.blocks| + 1
    ensures IndexOfBlock(s.blocks, id).Some? ==> |r.blocks| == |s.blocks|
    ensures forall i :: 0 <= i < |s.blocks| && s.blocks[i].id != id ==> r.blocks[i] == s.blocks[i]
  {
    var b := Block(id, name, Point(0.0, 0.0));
    match IndexOfBlock(s.blocks, id)
    case None =>
      var blocks := s.blocks + [b];
      assert blocks[|s.blocks|] == b;
      s.(blocks := blocks)
    case Some(i) =>
      var blocks := s.blocks[i := b];
      assert blocks[i] == b;
      s.(blocks := blocks)
  }

  /** `handleBlockMouseDown`: remember the grab offset, position minus
      mouse position. */
  function MouseDown(s: EditorState, b: Block, clientX: real, clientY: real): (r: EditorState)
    ensures r.blocks == s.blocks && r.moving.Some? && r.moving.value.id == b.id
    ensures clientX + r.moving.value.offsetX == b.position.x && clientY + r.moving.value.offsetY == b.position.y
  {
    s.(moving := Some(Drag(b.id, b.position.x - clientX, b.position.y - clientY)))
  }

  /** `handleMouseUp`: the drag ends, so no later move changes anything. */
  function MouseUp(s: EditorState): (r: EditorState)
    ensures r.blocks == s.blocks && r.moving.None?
    ensures forall clientX: real, clientY: real :: MouseMove(r, clientX, clientY) == r
  {
    s.(moving := None)
  }

  /** The first block with this id. */
  function IndexOfBlock(blocks: BlockTable, id: real): (r: Option<nat>)
    ensures r.Some? ==> r.value < |blocks| && blocks[r.value].id == id
    ensures r.Some? ==> forall j :: 0 <= j < r.value ==> blocks[j].id != id
    ensures r.None? <==> forall i :: 0 <= i < |blocks| ==> blocks[i].id != id
  {
    if |blocks| == 0 then None
    else if blocks[0].id == id then Some(0)
    else
      var rest := IndexOfBlock(blocks[1..], id);
      if rest.None? then None
      else
        assert forall j :: 1 <= j <= rest.value ==> blocks[j] == blocks[1..][j - 1];
        Some(rest.value + 1)
  }

  /** Where a drag asks to put the block: the mouse plus the grab
      offset. */
  function DragTarget(m: Drag, clientX: real, clientY: real): Point {
    Point(clientX + m.offsetX, clientY + m.offsetY)
  }

  /** `handleMouseMove`: without a drag nothing happens; during one, the
      dragged block moves to the mouse plus the grab offset, snapped. */
  function MouseMove(s: EditorState, clientX: real, clientY: real): (r: EditorState)
    requires s.moving.Some? ==> IndexOfBlock(s.blocks, s.moving.value.id).Some?
    ensures r.moving == s.moving && |r.blocks| == |s.blocks|
    ensures forall i :: 0 <= i < |s.blocks| ==> r.blocks[i].id == s.blocks[i].id && r.blocks[i].name == s.blocks[i].name
  {
    if s.moving.None? then s
    else
      var m := s.moving.value;
      var i := IndexOfBlock(s.blocks, m.id).value;
      s.(blocks := s.blocks[i := s.blocks[i].(position := SnapPosition(s.blocks, DragTarget(m, clientX, clientY), m.id))])
  }

  /** A move changes nothing but the dragged block's position, and puts it
      where `snapPosition` says for the mouse plus the grab offset. */
  lemma MouseMoveChangesOnlyDragged(s: EditorState, clientX: real, clientY: real)
    requires s.moving.Some? ==> IndexOfBlock(s.blocks, s.moving.value.id).Some?
    ensures s.moving.None? ==> MouseMove(s, clientX, clientY) == s
    ensures var r := MouseMove(s, clientX, clientY);
            && r.moving == s.moving && |r.blocks| == |s.blocks|
            && forall i :: 0 <= i < |s.blocks| ==>
                 && r.blocks[i].id == s.blocks[i].id && r.blocks[i].name == s.blocks[i].name
                 && (s.moving.None? || s.blocks[i].id != s.moving.value.id ==> r.blocks[i] == s.blocks[i])
    ensures s.moving.Some? ==>
              var m := s.moving.value;
              var k := IndexOfBlock(s.blocks, m.id).value;
              MouseMove(s, clientX, clientY).blocks[k].position == SnapPosition(s.blocks, DragTarget(m, clientX, clientY), m.id)
  {
  }

  /** The grab offset is kept: after grabbing a block, a move's unsnapped
      target is the block's position shifted by exactly the mouse's
      displacement, so a move back to the grab point targets the block's
      own position. */
  lemma GrabOffsetPreserved(s: EditorState, b: Block, downX: real, downY: real, moveX: real, moveY: real)
    ensures DragTarget(MouseDown(s, b, downX, downY).moving.value, moveX, moveY) ==
            Point(b.position.x + (moveX - downX), b.position.y + (moveY - downY))
    ensures DragTarget(MouseDown(s, b, downX, downY).moving.value, downX, downY) == b.position
  {
  }
}
