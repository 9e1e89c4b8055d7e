/**
 * The edits the viewer applies to the volume list.
 *
 * Every edit goes through the single write gate (`onUpdateSpaces` or
 * `onAddSpace`); a handler that returns before reaching the gate is modelled
 * as None, one that reaches it as Some(the new list). A new list is always a
 * fresh copy in which the volumes that are not edited are the same values.
 */
module Edits {
  import opened Wrappers
  import opened Volumes
  import opened FaceMap
  import opened Metrics

  /** `prev.map((space, idx) => idx === i ? f(space) : space)`, here with the one edited value given. */
  function ReplaceAt(spaces: seq<Space>, i: int, edited: Space): (r: seq<Space>)
    ensures |r| == |spaces|
    ensures forall j :: 0 <= j < |r| ==> r[j] == if j == i then edited else spaces[j]
  {
    if 0 <= i < |spaces| then spaces[i := edited] else spaces
  }

  // ---------------------------------------------------------------- side push/pull

  /** `Math.sqrt(dx * dx + dy * dy) || 1`: a zero length reads as 1 (the square root itself is an input). */
  function LengthOrOne(len: real): real { if len == 0.0 then 1.0 else len }

  /** The edge from vertex e to vertex (e + 1) % n. */
  function EdgeEnd(boundary: seq<Point>, e: int): int
    requires 0 <= e < |boundary|
  {
    (e + 1) % |boundary|
  }

  /** The amount both ends of the edge move: `delta * (-dy / len, dx / len)`. */
  function EdgeOffset(boundary: seq<Point>, e: int, delta: real, len: real): Point
    requires 0 <= e < |boundary|
  {
    var p1 := boundary[e];
    var p2 := boundary[EdgeEnd(boundary, e)];
    var dx := p2.x - p1.x;
    var dy := p2.y - p1.y;
    var l := LengthOrOne(len);
    Point(-dy / l * delta, dx / l * delta)
  }

  function Moved(p: Point, offset: Point): Point { Point(p.x + offset.x, p.y + offset.y) }

  /** The boundary with both ends of edge e moved by the edge offset. */
  function ShiftEdge(boundary: seq<Point>, e: int, delta: real, len: real): (r: seq<Point>)
    requires 0 <= e < |boundary|
    ensures |r| == |boundary|
  {
    var o := EdgeOffset(boundary, e, delta, len);
    var e2 := EdgeEnd(boundary, e);
    boundary[e := Moved(boundary[e], o)][e2 := Moved(boundary[e2], o)]
  }

  /** The edit as written: copy the boundary into a fresh array and assign its two edge ends. */
  method ShiftEdgeCopy(boundary: seq<Point>, e: int, delta: real, len: real) returns (r: seq<Point>)
    requires 0 <= e < |boundary|
    ensures r == ShiftEdge(boundary, e, delta, len)
  {
    var n := |boundary|;
    var copy := new Point[n](i requires 0 <= i < n => boundary[i]);
    var p1 := copy[e];
    var p2 := copy[(e + 1) % n];
    var dx := p2.x - p1.x;
    var dy := p2.y - p1.y;
    var l := if len == 0.0 then 1.0 else len;
    var nx := -dy / l;
    var ny := dx / l;
    var step := delta;
    assert copy[..] == boundary;
    ghost var o := EdgeOffset(boundary, e, delta, len);
    assert nx * step == o.x && ny * step == o.y;
    copy[e] := Point(p1.x + nx * step, p1.y + ny * step);
    assert copy[..] == boundary[e := Moved(boundary[e], o)];
    copy[(e + 1) % n] := Point(p2.x + nx * step, p2.y + ny * step);
    r := copy[..];
  }

  /** Only the two ends of the edge move, both by the same offset. */
  lemma ShiftEdgeMovesOnlyEdge(boundary: seq<Point>, e: int, delta: real, len: real)
    requires 0 <= e < |boundary| && |boundary| >= 2
    ensures var r := ShiftEdge(boundary, e, delta, len);
      var o := EdgeOffset(boundary, e, delta, len);
      var e2 := EdgeEnd(boundary, e);
      e2 != e &&
      r[e] == Moved(boundary[e], o) && r[e2] == Moved(boundary[e2], o) &&
      forall j :: 0 <= j < |r| && j != e && j != e2 ==> r[j] == boundary[j]
  {
  }

  /** The edge vector is preserved: the edge is translated, not turned or stretched. */
  lemma ShiftEdgeKeepsEdgeVector(boundary: seq<Point>, e: int, delta: real, len: real)
    requires 0 <= e < |boundary| && |boundary| >= 2
    ensures var r := ShiftEdge(boundary, e, delta, len);
      var e2 := EdgeEnd(boundary, e);
      r[e2].x - r[e].x == boundary[e2].x - boundary[e].x &&
      r[e2].y - r[e].y == boundary[e2].y - boundary[e].y
  {
  }

  lemma Perpendicular(dx: real, dy: real, l: real, delta: real)
    requires l != 0.0
    ensures (-dy / l * delta) * dx + (dx / l * delta) * dy == 0.0
  {
    var u := delta / l;
    assert -dy / l * delta == -(dy * u);
    assert dx / l * delta == dx * u;
  }

  /** The offset is perpendicular to the edge. */
  lemma ShiftEdgePerpendicular(boundary: seq<Point>, e: int, delta: real, len: real)
    requires 0 <= e < |boundary|
    ensures var o := EdgeOffset(boundary, e, delta, len);
      var dx := boundary[EdgeEnd(boundary, e)].x - boundary[e].x;
      var dy := boundary[EdgeEnd(boundary, e)].y - boundary[e].y;
      o.x * dx + o.y * dy == 0.0
  {
    var dx := boundary[EdgeEnd(boundary, e)].x - boundary[e].x;
    var dy := boundary[EdgeEnd(boundary, e)].y - boundary[e].y;
    Perpendicular(dx, dy, LengthOrOne(len), delta);
  }

  lemma SquareOfProduct(a: real, b: real)
    ensures (a * b) * (a * b) == (a * a) * (b * b)
  {
  }

  lemma ScaledComponent(d: real, l: real, delta: real)
    requires l != 0.0
    ensures d / l * delta == d * (delta / l)
  {
  }

  lemma UnitNormal(dx: real, dy: real, l: real, delta: real)
    requires l > 0.0 && l * l == dx * dx + dy * dy
    ensures (-dy / l * delta) * (-dy / l * delta) + (dx / l * delta) * (dx / l * delta) == delta * delta
  {
    var u := delta / l;
    ScaledComponent(-dy, l, delta);
    ScaledComponent(dx, l, delta);
    SquareOfProduct(-dy, u);
    SquareOfProduct(dx, u);
    SquareOfProduct(l, u);
    assert l * u == delta;
    calc {
      (-dy / l * delta) * (-dy / l * delta) + (dx / l * delta) * (dx / l * delta);
      ((-dy) * (-dy)) * (u * u) + (dx * dx) * (u * u);
      (dx * dx + dy * dy) * (u * u);
      (l * l) * (u * u);
      (l * u) * (l * u);
      delta * delta;
    }
  }

  /** When the given length is the edge's true length, both ends move exactly |delta| (squared: delta^2). */
  lemma ShiftEdgeDistance(boundary: seq<Point>, e: int, delta: real, len: real)
    requires 0 <= e < |boundary|
    requires var dx := boundary[EdgeEnd(boundary, e)].x - boundary[e].x;
      var dy := boundary[EdgeEnd(boundary, e)].y - boundary[e].y;
      len > 0.0 && len * len == dx * dx + dy * dy
    ensures var o := EdgeOffset(boundary, e, delta, len);
      o.x * o.x + o.y * o.y == delta * delta
  {
    var dx := boundary[EdgeEnd(boundary, e)].x - boundary[e].x;
    var dy := boundary[EdgeEnd(boundary, e)].y - boundary[e].y;
    UnitNormal(dx, dy, len, delta);
  }

  /** A degenerate (zero-length) edge does not move: `len || 1` avoids the division by zero. */
  lemma ShiftDegenerateEdge(boundary: seq<Point>, e: int, delta: real, len: real)
    requires 0 <= e < |boundary|
    requires boundary[EdgeEnd(boundary, e)] == boundary[e]
    ensures ShiftEdge(boundary, e, delta, len) == boundary
  {
  }

  /**
   * `handleExtrudeSide(delta)`: nothing happens without a selected volume and
   * a side face; otherwise the selected volume's edge `faceIdx - 2` is pushed
   * out by delta along its normal. `len` is the edge length the square root
   * gives for that edge.
   */
  function ExtrudeSide(spaces: seq<Space>, sel: Selection, delta: real, len: real): (r: Option<seq<Space>>)
    ensures r.None? <==> sel.shapeIdx.None? || sel.faceIdx.None? || sel.faceIdx.value < 2
  {
    if sel.shapeIdx.None? || sel.faceIdx.None? || sel.faceIdx.value < 2 then None
    else
      var i := sel.shapeIdx.value;
      var e := sel.faceIdx.value - 2;
      if 0 <= i < |spaces| && e < |spaces[i].boundary|
      then Some(ReplaceAt(spaces, i, spaces[i].(boundary := ShiftEdge(spaces[i].boundary, e, delta, len))))
      else Some(spaces)
  }

  /**
   * Side push/pull changes only the selected volume, and of it only the
   * boundary, keeping its length; the other volumes are unchanged. The new
   * boundary is the old one with edge `faceIdx - 2` shifted; with no such
   * volume or edge the list is unchanged.
   */
  lemma ExtrudeSideFrame(spaces: seq<Space>, sel: Selection, delta: real, len: real)
    requires ExtrudeSide(spaces, sel, delta, len).Some?
    ensures var r := ExtrudeSide(spaces, sel, delta, len).value;
      |r| == |spaces| &&
      (forall j :: 0 <= j < |r| && Some(j) != sel.shapeIdx ==> r[j] == spaces[j]) &&
      (forall j :: 0 <= j < |r| ==> r[j] == spaces[j].(boundary := r[j].boundary) && |r[j].boundary| == |spaces[j].boundary|)
    ensures var r := ExtrudeSide(spaces, sel, delta, len).value;
      var i := sel.shapeIdx.value;
      var e := sel.faceIdx.value - 2;
      if 0 <= i < |spaces| && e < |spaces[i].boundary|
      then 0 <= e && r[i].boundary == ShiftEdge(spaces[i].boundary, e, delta, len)
      else r == spaces
  {
  }

  /**
   * At handler level: of the selected volume's boundary only vertices e and
   * (e + 1) % n move, with e = faceIdx - 2, both by the same offset along the
   * edge normal, and the edge vector is kept.
   */
  lemma ExtrudeSideMovesOnlyEdge(spaces: seq<Space>, sel: Selection, delta: real, len: real)
    requires sel.shapeIdx.Some? && 0 <= sel.shapeIdx.value < |spaces|
    requires sel.faceIdx.Some? && 2 <= sel.faceIdx.value
    requires sel.faceIdx.value - 2 < |spaces[sel.shapeIdx.value].boundary|
    requires |spaces[sel.shapeIdx.value].boundary| >= 2
    ensures var r := ExtrudeSide(spaces, sel, delta, len).value;
      var i := sel.shapeIdx.value;
      var b := spaces[i].boundary;
      var e := sel.faceIdx.value - 2;
      var o := EdgeOffset(b, e, delta, len);
      var e2 := EdgeEnd(b, e);
      |r[i].boundary| == |b| && e2 != e &&
      r[i].boundary[e] == Moved(b[e], o) && r[i].boundary[e2] == Moved(b[e2], o) &&
      (forall j :: 0 <= j < |b| && j != e && j != e2 ==> r[i].boundary[j] == b[j]) &&
      r[i].boundary[e2].x - r[i].boundary[e].x == b[e2].x - b[e].x &&
      r[i].boundary[e2].y - r[i].boundary[e].y == b[e2].y - b[e].y
  {
    var i := sel.shapeIdx.value;
    var e := sel.faceIdx.value - 2;
    ExtrudeSideFrame(spaces, sel, delta, len);
    ShiftEdgeMovesOnlyEdge(spaces[i].boundary, e, delta, len);
    ShiftEdgeKeepsEdgeVector(spaces[i].boundary, e, delta, len);
  }

  // ---------------------------------------------------------------- vertex drag

  /**
   * The vertex-drag mouse move: without a dragged vertex nothing happens;
   * otherwise vertex `vertIdx` of volume `shapeIdx` goes to the point under the cursor.
   */
  function DragVertex(spaces: seq<Space>, shapeIdx: Option<int>, vertIdx: Option<int>, p: Point): (r: Option<seq<Space>>)
    ensures r.None? <==> shapeIdx.None? || vertIdx.None?
    ensures r.Some? ==> |r.value| == |spaces|
  {
    if shapeIdx.None? || vertIdx.None? then None
    else
      var i := shapeIdx.value;
      var v := vertIdx.value;
      if 0 <= i < |spaces| && 0 <= v < |spaces[i].boundary|
      then Some(ReplaceAt(spaces, i, spaces[i].(boundary := spaces[i].boundary[v := p])))
      else Some(spaces)
  }

  /** A drag moves exactly one vertex of one volume. */
  lemma DragMovesOneVertex(spaces: seq<Space>, i: int, v: int, p: Point)
    requires 0 <= i < |spaces| && 0 <= v < |spaces[i].boundary|
    ensures var r := DragVertex(spaces, Some(i), Some(v), p).value;
      r[i].boundary[v] == p && |r[i].boundary| == |spaces[i].boundary| &&
      (forall k :: 0 <= k < |r[i].boundary| && k != v ==> r[i].boundary[k] == spaces[i].boundary[k]) &&
      (forall j :: 0 <= j < |r| && j != i ==> r[j] == spaces[j]) &&
      r[i] == spaces[i].(boundary := r[i].boundary)
  {
  }

  // ---------------------------------------------------------------- height and type

  /** `handlePushPull(newHeight)`: with a selected volume, its height becomes newHeight. */
  function PushPull(spaces: seq<Space>, shapeIdx: Option<int>, newHeight: real): (r: Option<seq<Space>>)
    ensures r.None? <==> shapeIdx.None?
    ensures r.Some? ==> |r.value| == |spaces|
    ensures r.Some? ==> forall j :: 0 <= j < |spaces| ==>
      r.value[j] == if Some(j) == shapeIdx then spaces[j].(height := Val(newHeight)) else spaces[j]
  {
    if shapeIdx.None? then None
    else if 0 <= shapeIdx.value < |spaces| then Some(ReplaceAt(spaces, shapeIdx.value, spaces[shapeIdx.value].(height := Val(newHeight))))
    else Some(spaces)
  }

  /** The height the up/down buttons request: `Math.max(0.1, (spaces[i]?.height || 1) + step)`. */
  function SteppedHeight(spaces: seq<Space>, i: int, step: real): (h: real)
    ensures h >= 0.1
    ensures 0 <= i < |spaces| && EffHeight(spaces[i]) + step >= 0.1 ==> h == EffHeight(spaces[i]) + step
  {
    var current := if 0 <= i < |spaces| then EffHeight(spaces[i]) else 1.0;
    Max(0.1, current + step)
  }

  /**
   * The core height field and the space-type selector of the analysis panel.
   * The height field stores `parseFloat` of its input, NaN once it is cleared.
   */
  function SetCoreHeight(spaces: seq<Space>, i: int, input: Option<real>): (r: seq<Space>)
    ensures |r| == |spaces|
    ensures 0 <= i < |spaces| ==> r[i] == spaces[i].(height := Parsed(input))
    ensures forall j :: 0 <= j < |spaces| && j != i ==> r[j] == spaces[j]
  {
    if 0 <= i < |spaces| then ReplaceAt(spaces, i, spaces[i].(height := Parsed(input))) else spaces
  }

  function SetSpaceType(spaces: seq<Space>, i: int, t: SpaceType): (r: seq<Space>)
    ensures |r| == |spaces|
    ensures 0 <= i < |spaces| ==> r[i] == spaces[i].(spaceType := t)
    ensures forall j :: 0 <= j < |spaces| && j != i ==> r[j] == spaces[j]
  {
    if 0 <= i < |spaces| then ReplaceAt(spaces, i, spaces[i].(spaceType := t)) else spaces
  }

  // ---------------------------------------------------------------- delete

  predicate StrictlyIncreasingNat(s: seq<nat>) {
    forall i, j :: 0 <= i < j < |s| ==> s[i] < s[j]
  }

  /** The indices below n that are not dropped, ascending. */
  function KeptIndices(n: nat, drop: set<int>): (r: seq<nat>)
    ensures StrictlyIncreasingNat(r)
    ensures forall i :: 0 <= i < |r| ==> r[i] < n
    ensures forall k :: k in r <==> 0 <= k < n && k !in drop
  {
    if n == 0 then [] else KeptIndices(n - 1, drop) + (if n - 1 in drop then [] else [n - 1])
  }

  /** `prev.filter((_, idx) => !drop(idx))`. */
  function RemoveIndices(spaces: seq<Space>, drop: set<int>): (r: seq<Space>)
    ensures |r| <= |spaces|
  {
    if spaces == [] then []
    else RemoveIndices(spaces[..|spaces| - 1], drop) + (if |spaces| - 1 in drop then [] else [spaces[|spaces| - 1]])
  }

  /** The filter keeps exactly the volumes at the kept indices, in order. */
  lemma {:induction false} RemoveIndicesKeeps(spaces: seq<Space>, drop: set<int>)
    ensures var r := RemoveIndices(spaces, drop);
      var kept := KeptIndices(|spaces|, drop);
      |r| == |kept| && forall j :: 0 <= j < |r| ==> r[j] == spaces[kept[j]]
    decreases |spaces|
  {
    if spaces != [] {
      var n := |spaces|;
      var init := spaces[..n - 1];
      RemoveIndicesKeeps(init, drop);
      var rest := RemoveIndices(init, drop);
      var keptInit := KeptIndices(n - 1, drop);
      assert KeptIndices(n, drop) == keptInit + (if n - 1 in drop then [] else [n - 1]);
      assert RemoveIndices(spaces, drop) == rest + (if n - 1 in drop then [] else [spaces[n - 1]]);
      forall j | 0 <= j < |rest|
        ensures rest[j] == spaces[keptInit[j]]
      {
        assert keptInit[j] < n - 1;
        assert rest[j] == init[keptInit[j]];
      }
    }
  }

  function SeqToSet(s: seq<int>): set<int> { set x | x in s }

  /**
   * The Delete key in volume mode: with a multi-selection every selected
   * index is removed; otherwise the selected volume. Nothing happens outside
   * volume mode or with neither a valid selection nor a multi-selection.
   */
  function DeleteSelected(spaces: seq<Space>, volumeMode: bool, shapeIdx: Option<int>, multi: seq<int>): (r: Option<seq<Space>>)
    ensures r.None? <==> !volumeMode || (!(shapeIdx.Some? && 0 <= shapeIdx.value < |spaces|) && |multi| == 0)
  {
    if !volumeMode || (!(shapeIdx.Some? && 0 <= shapeIdx.value < |spaces|) && |multi| == 0) then None
    else if |multi| > 0 then Some(RemoveIndices(spaces, SeqToSet(multi)))
    else Some(RemoveIndices(spaces, {shapeIdx.value}))
  }

  /** Removing one index is the splice around it. */
  lemma {:induction false} RemoveOne(spaces: seq<Space>, i: int)
    requires 0 <= i < |spaces|
    ensures RemoveIndices(spaces, {i}) == spaces[..i] + spaces[i + 1..]
    decreases |spaces|
  {
    var n := |spaces|;
    var init := spaces[..n - 1];
    if i == n - 1 {
      assert RemoveIndices(spaces, {i}) == RemoveIndices(init, {i});
      NoneRemoved(init, {i});
      assert spaces[..i] == init && spaces[i + 1..] == [];
    } else {
      assert RemoveIndices(spaces, {i}) == RemoveIndices(init, {i}) + [spaces[n - 1]];
      RemoveOne(init, i);
      assert init[..i] == spaces[..i];
      assert init[i + 1..] + [spaces[n - 1]] == spaces[i + 1..];
    }
  }

  lemma {:induction false} NoneRemoved(spaces: seq<Space>, drop: set<int>)
    requires forall k :: 0 <= k < |spaces| ==> k !in drop
    ensures RemoveIndices(spaces, drop) == spaces
  {
    if spaces != [] {
      var init := spaces[..|spaces| - 1];
      NoneRemoved(init, drop);
      assert init + [spaces[|spaces| - 1]] == spaces;
    }
  }

  /** A multi-selection delete keeps exactly the unselected volumes, in order. */
  lemma DeleteMultiKeeps(spaces: seq<Space>, shapeIdx: Option<int>, multi: seq<int>)
    requires |multi| > 0
    ensures var r := DeleteSelected(spaces, true, shapeIdx, multi).value;
      var kept := KeptIndices(|spaces|, SeqToSet(multi));
      |r| == |kept| &&
      (forall j :: 0 <= j < |r| ==> r[j] == spaces[kept[j]]) &&
      (forall k :: k in kept <==> 0 <= k < |spaces| && k !in multi)
  {
    RemoveIndicesKeeps(spaces, SeqToSet(multi));
  }

  // ---------------------------------------------------------------- new volumes

  /** The base a new volume gets: the top of the selected volume, or the ground without a selection. */
  function StackedBase(spaces: seq<Space>, shapeIdx: Option<int>): (z: real)
    ensures shapeIdx.Some? && 0 <= shapeIdx.value < |spaces| ==> z == EffTop(spaces[shapeIdx.value])
    ensures !(shapeIdx.Some? && 0 <= shapeIdx.value < |spaces|) ==> z == 0.0
  {
    if shapeIdx.Some? && 0 <= shapeIdx.value < |spaces| then EffBase(spaces[shapeIdx.value]) + EffHeight(spaces[shapeIdx.value]) else 0.0
  }

  /** The base a new core gets: the base of the volume it is drawn for, or the ground. */
  function CoreBase(spaces: seq<Space>, pendingCoreFor: Option<int>): (z: real)
    ensures pendingCoreFor.Some? && 0 <= pendingCoreFor.value < |spaces| ==> z == EffBase(spaces[pendingCoreFor.value])
    ensures !(pendingCoreFor.Some? && 0 <= pendingCoreFor.value < |spaces|) ==> z == 0.0
  {
    if pendingCoreFor.Some? && 0 <= pendingCoreFor.value < |spaces| then EffBase(spaces[pendingCoreFor.value]) else 0.0
  }

  /** `name && height`: a non-empty name and a height that is a number other than 0 (None stands for NaN). */
  function Truthy(name: string, height: Option<real>): (b: bool)
    ensures name == [] || height.None? || height == Some(0.0) ==> !b
    ensures name != [] && height.Some? && height.value != 0.0 ==> b
  {
    name != [] && height.Some? && height.value != 0.0
  }

  /** `handleComplete` after the rectangle tool: stacked on the selected volume. */
  function CompleteRectangle(spaces: seq<Space>, shapeIdx: Option<int>, name: string, boundary: seq<Point>, height: Option<real>): (r: Option<seq<Space>>)
    ensures r.Some? <==> Truthy(name, height)
    ensures r.Some? ==> r.value == spaces + [NewVolume(name, boundary, height.value, StackedBase(spaces, shapeIdx))]
  {
    if Truthy(name, height) then Some(spaces + [NewVolume(name, boundary, height.value, StackedBase(spaces, shapeIdx))]) else None
  }

  /** `handlePolygonComplete` after a double click on at least three points. */
  function CompletePolygon(spaces: seq<Space>, shapeIdx: Option<int>, name: string, points: seq<Point>, height: Option<real>): (r: Option<seq<Space>>)
    ensures r.Some? <==> |points| >= 3 && Truthy(name, height)
    ensures r.Some? ==> r.value == spaces + [NewVolume(name, points, height.value, StackedBase(spaces, shapeIdx))]
  {
    if |points| >= 3 && Truthy(name, height) then Some(spaces + [NewVolume(name, points, height.value, StackedBase(spaces, shapeIdx))]) else None
  }

  /** `handleCoreComplete`: a core at the base of the volume it belongs to. */
  function CompleteCore(spaces: seq<Space>, pendingCoreFor: Option<int>, name: string, boundary: seq<Point>, height: Option<real>): (r: Option<seq<Space>>)
    ensures r.Some? <==> Truthy(name, height)
    ensures r.Some? ==> r.value == spaces + [Space(name, boundary, Val(height.value), Some(CoreBase(spaces, pendingCoreFor)), true, Unspecified)]
  {
    if Truthy(name, height) then Some(spaces + [Space(name, boundary, Val(height.value), Some(CoreBase(spaces, pendingCoreFor)), true, Unspecified)]) else None
  }

  /** A volume stacked on the selected one never overlaps it in Z, so it never cuts or is cut by it. */
  lemma StackedVolumeClearsSelected(spaces: seq<Space>, i: int, name: string, boundary: seq<Point>, height: real)
    requires 0 <= i < |spaces|
    ensures ZOverlap(NewVolume(name, boundary, height, StackedBase(spaces, Some(i))), spaces[i]) <= 0.0
  {
  }

  /** A core drawn for a volume starts at that volume's base, so with positive heights it overlaps it by the lower height. */
  lemma CoreOverlapsItsVolume(spaces: seq<Space>, i: int, name: string, boundary: seq<Point>, height: real)
    requires 0 <= i < |spaces| && !spaces[i].isCore
    requires height > 0.0 && EffHeight(spaces[i]) > 0.0
    ensures var core := CompleteCore(spaces, Some(i), name, boundary, Some(height));
      name != [] ==> (core.Some? && ZOverlap(spaces[i], core.value[|spaces|]) == Min(EffHeight(spaces[i]), height))
  {
  }
}
