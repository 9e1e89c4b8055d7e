/**
 * `extractBottomFaceBoundary`: the outline of a mesh's lowest face.
 *
 * The vertex positions are scanned for the lowest and highest Z (shifted by
 * the mesh's own Z position), the vertices within 1e-4 of the lowest Z are
 * kept as plan points, and Andrew's monotone chain orders them: a lower and
 * an upper chain built with push/pop stacks over the points sorted by x
 * then y, each with its last point dropped, then joined.
 */
module BottomFace {
  import opened Wrappers
  import opened Volumes

  datatype Vertex = Vertex(x: real, y: real, z: real)

  /** The Z tolerance of the bottom-face test, `1e-4`. */
  const Tolerance: real := 0.0001

  // ---------------------------------------------------------------- Z range

  function MinZ(vs: seq<Vertex>, zOffset: real): (m: real)
    requires |vs| > 0
    ensures forall i :: 0 <= i < |vs| ==> m <= vs[i].z + zOffset
  {
    if |vs| == 1 then vs[0].z + zOffset
    else
      var m := MinZ(vs[..|vs| - 1], zOffset);
      assert forall i :: 0 <= i < |vs| - 1 ==> vs[..|vs| - 1][i] == vs[i];
      Min(m, vs[|vs| - 1].z + zOffset)
  }

  function MaxZ(vs: seq<Vertex>, zOffset: real): (m: real)
    requires |vs| > 0
    ensures forall i :: 0 <= i < |vs| ==> vs[i].z + zOffset <= m
  {
    if |vs| == 1 then vs[0].z + zOffset
    else
      var m := MaxZ(vs[..|vs| - 1], zOffset);
      assert forall i :: 0 <= i < |vs| - 1 ==> vs[..|vs| - 1][i] == vs[i];
      Max(m, vs[|vs| - 1].z + zOffset)
  }

  lemma MinZStep(vs: seq<Vertex>, zOffset: real, i: int)
    requires 1 <= i < |vs|
    ensures MinZ(vs[..i + 1], zOffset) == Min(MinZ(vs[..i], zOffset), vs[i].z + zOffset)
    ensures MaxZ(vs[..i + 1], zOffset) == Max(MaxZ(vs[..i], zOffset), vs[i].z + zOffset)
  {
    assert vs[..i + 1][..i] == vs[..i];
  }

  /** The minimum is attained: some vertex lies at the lowest Z. */
  lemma {:induction false} MinZAttained(vs: seq<Vertex>, zOffset: real) returns (k: int)
    requires |vs| > 0
    ensures 0 <= k < |vs| && vs[k].z + zOffset == MinZ(vs, zOffset)
    decreases |vs|
  {
    if |vs| == 1 {
      k := 0;
    } else {
      var n := |vs| - 1;
      k := MinZAttained(vs[..n], zOffset);
      if vs[n].z + zOffset < MinZ(vs[..n], zOffset) {
        k := n;
      }
    }
  }

  /** A non-empty mesh always has a bottom face point: the lowest vertex. */
  lemma BottomNonEmpty(vs: seq<Vertex>, zOffset: real)
    requires |vs| > 0
    ensures |BottomPoints(vs, zOffset, MinZ(vs, zOffset))| > 0
  {
    var k := MinZAttained(vs, zOffset);
    assert AtBottom(vs[k], zOffset, MinZ(vs, zOffset));
    assert vs[k] in vs;
    assert Point(vs[k].x, vs[k].y) in BottomPoints(vs, zOffset, MinZ(vs, zOffset));
  }

  /**
   * The first loop: the running minimum and maximum of `z + zOffset`, None
   * for a mesh without vertices (where the scan leaves +/-Infinity).
   */
  method ZRange(vs: seq<Vertex>, zOffset: real) returns (range: Option<(real, real)>)
    ensures vs == [] <==> range.None?
    ensures vs != [] ==> range == Some((MinZ(vs, zOffset), MaxZ(vs, zOffset)))
  {
    if |vs| == 0 {
      return None;
    }
    var lo, hi := vs[0].z + zOffset, vs[0].z + zOffset;
    var i := 1;
    assert vs[..1] == [vs[0]];
    while i < |vs|
      invariant 1 <= i <= |vs|
      invariant lo == MinZ(vs[..i], zOffset) && hi == MaxZ(vs[..i], zOffset)
    {
      var z := vs[i].z + zOffset;
      MinZStep(vs, zOffset, i);
      if z < lo { lo := z; }
      if z > hi { hi := z; }
      i := i + 1;
    }
    assert vs[..i] == vs;
    return Some((lo, hi));
  }

  // ---------------------------------------------------------------- bottom vertices

  predicate AtBottom(v: Vertex, zOffset: real, minZ: real) {
    Abs(v.z + zOffset - minZ) < Tolerance
  }

  /** The second loop: the plan points of the vertices at the lowest Z, in vertex order. */
  function BottomPoints(vs: seq<Vertex>, zOffset: real, minZ: real): (r: seq<Point>)
    ensures |r| <= |vs|
    ensures forall p :: p in r <==> exists v :: v in vs && AtBottom(v, zOffset, minZ) && p == Point(v.x, v.y)
  {
    if vs == [] then []
    else
      var init := vs[..|vs| - 1];
      var v := vs[|vs| - 1];
      assert vs == init + [v];
      BottomPoints(init, zOffset, minZ) + (if AtBottom(v, zOffset, minZ) then [Point(v.x, v.y)] else [])
  }

  // ---------------------------------------------------------------- sort

  /** The comparator `a[0] - b[0] || a[1] - b[1]`: by x, then by y. */
  predicate LexLe(a: Point, b: Point) {
    a.x < b.x || (a.x == b.x && a.y <= b.y)
  }

  predicate Sorted(s: seq<Point>) {
    forall i, j :: 0 <= i < j < |s| ==> LexLe(s[i], s[j])
  }

  lemma SortedCons(x: Point, rest: seq<Point>)
    requires Sorted(rest) && forall q :: q in rest ==> LexLe(x, q)
    ensures Sorted([x] + rest)
  {
    var r := [x] + rest;
    forall i, j | 0 <= i < j < |r|
      ensures LexLe(r[i], r[j])
    {
      assert r[j] == rest[j - 1];
      if i > 0 {
        assert r[i] == rest[i - 1];
      }
    }
  }

  function Insert(p: Point, s: seq<Point>): (r: seq<Point>)
    requires Sorted(s)
    ensures Sorted(r)
    ensures forall q :: q in r ==> q == p || q in s
    ensures multiset(r) == multiset(s) + multiset{p}
  {
    if s == [] then [p]
    else if LexLe(p, s[0]) then
      assert forall q :: q in s ==> LexLe(s[0], q);
      SortedCons(p, s);
      [p] + s
    else
      var rest := Insert(p, s[1..]);
      assert s == [s[0]] + s[1..];
      assert forall q :: q in s[1..] ==> LexLe(s[0], q);
      SortedCons(s[0], rest);
      [s[0]] + rest
  }

  /** `verts.sort(...)`: the points in lexicographic order, the same points as before. */
  function SortLex(s: seq<Point>): (r: seq<Point>)
    ensures Sorted(r)
    ensures multiset(r) == multiset(s)
    ensures |r| == |s|
  {
    if s == [] then []
    else
      var r := Insert(s[|s| - 1], SortLex(s[..|s| - 1]));
      assert s == s[..|s| - 1] + [s[|s| - 1]];
      assert |multiset(r)| == |multiset(s)|;
      r
  }

  // ---------------------------------------------------------------- monotone chain

  /** `cross(o, a, b)`: positive when o, a, b make a left (counter-clockwise) turn. */
  function Cross(o: Point, a: Point, b: Point): real {
    (a.x - o.x) * (b.y - o.y) - (a.y - o.y) * (b.x - o.x)
  }

  /** Every three consecutive entries turn strictly left. */
  predicate LeftTurns(s: seq<Point>) {
    forall i :: 0 <= i < |s| - 2 ==> Cross(s[i], s[i + 1], s[i + 2]) > 0.0
  }

  predicate Increasing(idx: seq<int>, bound: int) {
    (forall i, j :: 0 <= i < j < |idx| ==> idx[i] < idx[j]) &&
    (forall i :: 0 <= i < |idx| ==> 0 <= idx[i] < bound)
  }

  /** The stack after the first i points: strict left turns, taken in order from those points. */
  predicate ChainState(stack: seq<Point>, idx: seq<int>, pts: seq<Point>, i: int) {
    0 <= i <= |pts| && |idx| == |stack| && Increasing(idx, i) &&
    (forall j :: 0 <= j < |stack| ==> stack[j] == pts[idx[j]]) &&
    LeftTurns(stack)
  }

  lemma PopKeeps(stack: seq<Point>, idx: seq<int>, pts: seq<Point>, i: int)
    requires ChainState(stack, idx, pts, i) && |stack| > 0
    ensures ChainState(stack[..|stack| - 1], idx[..|idx| - 1], pts, i)
  {
  }

  lemma PushKeeps(stack: seq<Point>, idx: seq<int>, pts: seq<Point>, i: int)
    requires ChainState(stack, idx, pts, i) && i < |pts|
    requires |stack| < 2 || Cross(stack[|stack| - 2], stack[|stack| - 1], pts[i]) > 0.0
    ensures ChainState(stack + [pts[i]], idx + [i], pts, i + 1)
  {
    var s, d := stack + [pts[i]], idx + [i];
    forall k | 0 <= k < |s| - 2
      ensures Cross(s[k], s[k + 1], s[k + 2]) > 0.0
    {
      if k + 2 < |stack| {
        assert s[k] == stack[k] && s[k + 1] == stack[k + 1] && s[k + 2] == stack[k + 2];
      }
    }
  }

  /** What holds between two points of the outer loop: the stack after the first i points. */
  predicate Pushed(stack: seq<Point>, idx: seq<int>, pts: seq<Point>, i: int) {
    ChainState(stack, idx, pts, i) &&
    (i == 0 ==> stack == []) && (i == 1 ==> |stack| == 1) && (i >= 2 ==> |stack| >= 2) &&
    (i > 0 ==> |stack| > 0 && stack[0] == pts[0] && stack[|stack| - 1] == pts[i - 1])
  }

  /** What holds while the inner loop pops before point i is pushed. */
  predicate Popping(stack: seq<Point>, idx: seq<int>, pts: seq<Point>, i: int) {
    ChainState(stack, idx, pts, i) &&
    (i == 0 ==> stack == []) && (i == 1 ==> |stack| == 1) &&
    (i > 0 ==> |stack| > 0 && stack[0] == pts[0])
  }

  lemma StartPopping(stack: seq<Point>, idx: seq<int>, pts: seq<Point>, i: int)
    requires Pushed(stack, idx, pts, i)
    ensures Popping(stack, idx, pts, i)
  {
  }

  lemma PopStep(stack: seq<Point>, idx: seq<int>, pts: seq<Point>, i: int)
    requires Popping(stack, idx, pts, i) && |stack| >= 2
    ensures Popping(stack[..|stack| - 1], idx[..|idx| - 1], pts, i)
  {
    PopKeeps(stack, idx, pts, i);
  }

  lemma PushStep(stack: seq<Point>, idx: seq<int>, pts: seq<Point>, i: int)
    requires Popping(stack, idx, pts, i) && i < |pts|
    requires |stack| < 2 || Cross(stack[|stack| - 2], stack[|stack| - 1], pts[i]) > 0.0
    ensures Pushed(stack + [pts[i]], idx + [i], pts, i + 1)
  {
    PushKeeps(stack, idx, pts, i);
    var pushed := stack + [pts[i]];
    assert |stack| > 0 ==> pushed[0] == stack[0];
  }

  /**
   * One chain: each point is pushed after popping every top entry that
   * would not make a strict left turn with it. The chain is a subsequence of
   * the input (ghost `idx` holds the positions) that keeps the first and
   * the last point.
   */
  method Chain(pts: seq<Point>) returns (stack: seq<Point>, ghost idx: seq<int>)
    ensures ChainState(stack, idx, pts, |pts|)
    ensures |pts| >= 2 ==> |stack| >= 2
    ensures |pts| == 1 ==> |stack| == 1
    ensures |pts| > 0 ==> stack[0] == pts[0] && stack[|stack| - 1] == pts[|pts| - 1]
  {
    stack, idx := [], [];
    var i := 0;
    while i < |pts|
      invariant 0 <= i <= |pts|
      invariant Pushed(stack, idx, pts, i)
    {
      var v := pts[i];
      StartPopping(stack, idx, pts, i);
      while |stack| >= 2 && Cross(stack[|stack| - 2], stack[|stack| - 1], v) <= 0.0
        invariant Popping(stack, idx, pts, i)
        decreases |stack|
      {
        PopStep(stack, idx, pts, i);
        stack, idx := stack[..|stack| - 1], idx[..|idx| - 1];
      }
      PushStep(stack, idx, pts, i);
      stack, idx := stack + [v], idx + [i];
      i := i + 1;
    }
  }

  predicate Reversed(a: seq<Point>, b: seq<Point>) {
    |a| == |b| && forall i :: 0 <= i < |a| ==> a[i] == b[|b| - 1 - i]
  }

  function Reverse(s: seq<Point>): (r: seq<Point>)
    ensures Reversed(r, s)
  {
    seq(|s|, i requires 0 <= i < |s| => s[|s| - 1 - i])
  }

  datatype BottomBoundary = BottomBoundary(boundary: seq<Point>, range: Option<(real, real)>)

  /**
   * The whole function: empty when fewer than three vertices lie at the
   * lowest Z; otherwise the lower chain and the upper chain (built over the
   * sorted points in reverse), each without its last point, joined.
   */
  method ExtractBottomFace(vs: seq<Vertex>, zOffset: real) returns (r: BottomBoundary, lower: seq<Point>, upper: seq<Point>)
    ensures vs != [] <==> r.range.Some?
    ensures vs != [] ==> r.range.value == (MinZ(vs, zOffset), MaxZ(vs, zOffset))
    ensures vs == [] || |BottomPoints(vs, zOffset, MinZ(vs, zOffset))| < 3 <==> r.boundary == []
    ensures r.boundary != [] ==>
      var verts := BottomPoints(vs, zOffset, MinZ(vs, zOffset));
      (forall p :: p in r.boundary ==> p in verts) &&
      |r.boundary| <= 2 * |verts| - 2 &&
      |lower| >= 2 && |upper| >= 2 && LeftTurns(lower) && LeftTurns(upper) &&
      r.boundary == lower[..|lower| - 1] + upper[..|upper| - 1] &&
      lower[0] == upper[|upper| - 1] && upper[0] == lower[|lower| - 1]
  {
    var range := ZRange(vs, zOffset);
    lower, upper := [], [];
    if range.None? {
      return BottomBoundary([], range), lower, upper;
    }
    var minZ := range.value.0;
    var verts := BottomPoints(vs, zOffset, minZ);
    if |verts| < 3 {
      return BottomBoundary([], range), lower, upper;
    }
    var sorted := SortLex(verts);
    ghost var li, ui;
    lower, li := Chain(sorted);
    upper, ui := Chain(Reverse(sorted));
    var boundary := lower[..|lower| - 1] + upper[..|upper| - 1];
    forall p | p in boundary
      ensures p in verts
    {
      if p in lower[..|lower| - 1] {
        var j :| 0 <= j < |lower| - 1 && lower[j] == p;
        assert sorted[li[j]] in multiset(sorted);
      } else {
        var j :| 0 <= j < |upper| - 1 && upper[j] == p;
        var k := |sorted| - 1 - ui[j];
        assert Reverse(sorted)[ui[j]] == sorted[k];
        assert sorted[k] in multiset(sorted);
      }
    }
    IncreasingBound(li, |sorted|);
    IncreasingBound(ui, |sorted|);
    r := BottomBoundary(boundary, range);
  }

  /** A strictly increasing list of positions below n has at most n entries. */
  lemma {:induction false} IncreasingBound(idx: seq<int>, n: int)
    requires n >= 0 && Increasing(idx, n)
    ensures |idx| <= n
    decreases |idx|
  {
    if |idx| > 0 {
      var last := idx[|idx| - 1];
      var init := idx[..|idx| - 1];
      assert last < n;
      assert Increasing(init, last);
      IncreasingBound(init, last);
    }
  }
}
