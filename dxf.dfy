/**
 * DXF plan import: the polylines of one layer become pending outlines.
 *
 * Starting from the parsed entities (the DXF text parser is not modelled),
 * the import keeps the polylines of the chosen layer, converts their
 * vertices from centimetres to metres, drops outlines with at most one
 * vertex, moves the centroid of all vertices to the origin, and rescales
 * when `max(width, height) / 100 > 20`. The outlines are then staged as
 * pending shapes, which the user can edit before "Add All" turns them into
 * volumes.
 */
module DxfImport {
  import opened Wrappers
  import opened Volumes

  /** A parsed entity: its type, its layer, and the vertex list under `vertices` or `points` (either may be missing). */
  datatype Entity = Entity(kind: string, layer: string, vertices: Option<seq<Point>>, points: Option<seq<Point>>)

  predicate Wanted(e: Entity, layer: string) {
    (e.kind == "LWPOLYLINE" || e.kind == "POLYLINE") && e.layer == layer
  }

  /** The polylines of the selected layer, in file order. */
  function LayerPolylines(entities: seq<Entity>, layer: string): (r: seq<Entity>)
    ensures |r| <= |entities|
    ensures forall e :: e in r <==> e in entities && Wanted(e, layer)
  {
    if entities == [] then []
    else
      var init := entities[..|entities| - 1];
      var last := entities[|entities| - 1];
      assert entities == init + [last];
      LayerPolylines(init, layer) + (if Wanted(last, layer) then [last] else [])
  }

  /** The positions in `entities` of the layer's polylines, ascending. */
  function LayerIndices(entities: seq<Entity>, layer: string): (r: seq<nat>)
    ensures forall p, q :: 0 <= p < q < |r| ==> r[p] < r[q]
    ensures forall p :: 0 <= p < |r| ==> r[p] < |entities| && Wanted(entities[r[p]], layer)
  {
    if entities == [] then []
    else LayerIndices(entities[..|entities| - 1], layer) + (if Wanted(entities[|entities| - 1], layer) then [|entities| - 1] else [])
  }

  /** The p-th polyline of the layer is the entity at position `LayerIndices(..)[p]`. */
  lemma {:induction false} LayerAtIndices(entities: seq<Entity>, layer: string)
    ensures var r := LayerPolylines(entities, layer);
      var js := LayerIndices(entities, layer);
      |r| == |js| && forall p :: 0 <= p < |r| ==> r[p] == entities[js[p]]
  {
    if entities != [] {
      var n := |entities|;
      var init := entities[..n - 1];
      LayerAtIndices(init, layer);
      var r, r' := LayerPolylines(entities, layer), LayerPolylines(init, layer);
      var js, js' := LayerIndices(entities, layer), LayerIndices(init, layer);
      var keep := Wanted(entities[n - 1], layer);
      assert r == r' + (if keep then [entities[n - 1]] else []);
      assert js == js' + (if keep then [n - 1] else []);
      forall p | 0 <= p < |r|
        ensures r[p] == entities[js[p]]
      {
        if p < |r'| {
          assert r[p] == r'[p] && js[p] == js'[p] && init[js'[p]] == entities[js'[p]];
        }
      }
    }
  }

  /** `poly.vertices`, else `poly.points`, else no vertices. */
  function RawVertices(e: Entity): seq<Point> {
    if e.vertices.Some? then e.vertices.value else if e.points.Some? then e.points.value else []
  }

  /** `[v.x / 100, v.y / 100]`: centimetres to metres. */
  function ToMetres(pts: seq<Point>): (r: seq<Point>)
    ensures |r| == |pts|
    ensures forall i :: 0 <= i < |r| ==> r[i].x * 100.0 == pts[i].x && r[i].y * 100.0 == pts[i].y
  {
    seq(|pts|, i requires 0 <= i < |pts| => Point(pts[i].x / 100.0, pts[i].y / 100.0))
  }

  function Converted(polys: seq<Entity>): (r: seq<seq<Point>>)
    ensures |r| == |polys|
    ensures forall i :: 0 <= i < |r| ==> |r[i]| == |RawVertices(polys[i])|
  {
    seq(|polys|, i requires 0 <= i < |polys| => ToMetres(RawVertices(polys[i])))
  }

  /** `.filter(b => b.length > 1)`. */
  function MultiVertex(bs: seq<seq<Point>>): (r: seq<seq<Point>>)
    ensures |r| <= |bs|
    ensures forall b :: b in r <==> b in bs && |b| > 1
  {
    if bs == [] then []
    else
      var init := bs[..|bs| - 1];
      var last := bs[|bs| - 1];
      assert bs == init + [last];
      MultiVertex(init) + (if |last| > 1 then [last] else [])
  }

  /** The positions in `bs` of the outlines the filter keeps, ascending. */
  function MultiVertexIndices(bs: seq<seq<Point>>): (r: seq<nat>)
    ensures forall p, q :: 0 <= p < q < |r| ==> r[p] < r[q]
    ensures forall p :: 0 <= p < |r| ==> r[p] < |bs| && |bs[r[p]]| > 1
  {
    if bs == [] then []
    else MultiVertexIndices(bs[..|bs| - 1]) + (if |bs[|bs| - 1]| > 1 then [|bs| - 1] else [])
  }

  /** The p-th kept outline is the outline at position `MultiVertexIndices(bs)[p]`. */
  lemma {:induction false} MultiVertexAtIndices(bs: seq<seq<Point>>)
    ensures var r := MultiVertex(bs);
      var js := MultiVertexIndices(bs);
      |r| == |js| && forall p :: 0 <= p < |r| ==> r[p] == bs[js[p]]
  {
    if bs != [] {
      var n := |bs|;
      var init := bs[..n - 1];
      MultiVertexAtIndices(init);
      var r, r' := MultiVertex(bs), MultiVertex(init);
      var js, js' := MultiVertexIndices(bs), MultiVertexIndices(init);
      var keep := |bs[n - 1]| > 1;
      assert r == r' + (if keep then [bs[n - 1]] else []);
      assert js == js' + (if keep then [n - 1] else []);
      forall p | 0 <= p < |r|
        ensures r[p] == bs[js[p]]
      {
        if p < |r'| {
          assert r[p] == r'[p] && js[p] == js'[p] && init[js'[p]] == bs[js'[p]];
        }
      }
    }
  }

  /** `boundaries.flat()`. */
  function Flatten(bs: seq<seq<Point>>): (r: seq<Point>)
    ensures bs != [] && |bs[|bs| - 1]| > 0 ==> |r| > 0
  {
    if bs == [] then [] else Flatten(bs[..|bs| - 1]) + bs[|bs| - 1]
  }

  /** The sum of all coordinates, `reduce((acc, [x, y]) => [acc[0] + x, acc[1] + y], [0, 0])`. */
  function SumPoints(pts: seq<Point>): Point {
    if pts == [] then Point(0.0, 0.0)
    else
      var s := SumPoints(pts[..|pts| - 1]);
      Point(s.x + pts[|pts| - 1].x, s.y + pts[|pts| - 1].y)
  }

  function Centroid(pts: seq<Point>): Point
    requires |pts| > 0
  {
    var s := SumPoints(pts);
    Point(s.x / |pts| as real, s.y / |pts| as real)
  }

  /** Every point shifted by -c: `[x - centroid[0], y - centroid[1]]`. */
  function Shifted(pts: seq<Point>, c: Point): (r: seq<Point>)
    ensures |r| == |pts|
  {
    seq(|pts|, i requires 0 <= i < |pts| => Point(pts[i].x - c.x, pts[i].y - c.y))
  }

  /** Every point scaled by k: `[x * scale, y * scale]`. */
  function Scaled(pts: seq<Point>, k: real): (r: seq<Point>)
    ensures |r| == |pts|
  {
    seq(|pts|, i requires 0 <= i < |pts| => Point(pts[i].x * k, pts[i].y * k))
  }

  function CentreAll(bs: seq<seq<Point>>, c: Point): (r: seq<seq<Point>>)
    ensures |r| == |bs| && forall i :: 0 <= i < |r| ==> |r[i]| == |bs[i]|
  {
    seq(|bs|, i requires 0 <= i < |bs| => Shifted(bs[i], c))
  }

  function ScaleAll(bs: seq<seq<Point>>, k: real): (r: seq<seq<Point>>)
    ensures |r| == |bs| && forall i :: 0 <= i < |r| ==> |r[i]| == |bs[i]|
  {
    seq(|bs|, i requires 0 <= i < |bs| => Scaled(bs[i], k))
  }

  // ---------------------------------------------------------------- extent

  function Xs(pts: seq<Point>): (r: seq<real>)
    ensures |r| == |pts| && forall i :: 0 <= i < |r| ==> r[i] == pts[i].x
  {
    seq(|pts|, i requires 0 <= i < |pts| => pts[i].x)
  }

  function Ys(pts: seq<Point>): (r: seq<real>)
    ensures |r| == |pts| && forall i :: 0 <= i < |r| ==> r[i] == pts[i].y
  {
    seq(|pts|, i requires 0 <= i < |pts| => pts[i].y)
  }

  /** The smallest value (what `if (x < minX) minX = x` leaves after a scan from +Infinity). */
  function SeqMin(s: seq<real>): (m: real)
    requires |s| > 0
    ensures forall i :: 0 <= i < |s| ==> m <= s[i]
  {
    if |s| == 1 then s[0]
    else
      var init := s[..|s| - 1];
      var m := SeqMin(init);
      assert forall i :: 0 <= i < |init| ==> s[i] == init[i];
      Min(m, s[|s| - 1])
  }

  /** The value is one of the elements. */
  lemma {:induction false} SeqMinAttained(s: seq<real>)
    requires |s| > 0
    ensures exists i :: 0 <= i < |s| && s[i] == SeqMin(s)
    decreases |s|
  {
    if |s| == 1 {
      assert s[0] == SeqMin(s);
    } else {
      var init := s[..|s| - 1];
      SeqMinAttained(init);
      var i :| 0 <= i < |init| && init[i] == SeqMin(init);
      if SeqMin(s) == s[|s| - 1] {
        assert s[|s| - 1] == SeqMin(s);
      } else {
        assert s[i] == SeqMin(s);
      }
    }
  }

  lemma SeqMinStep(s: seq<real>, i: int)
    requires 1 <= i < |s|
    ensures SeqMin(s[..i + 1]) == Min(SeqMin(s[..i]), s[i])
  {
    assert s[..i + 1][..i] == s[..i];
  }

  /** The largest value (what `if (x > maxX) maxX = x` leaves after a scan from -Infinity). */
  function SeqMax(s: seq<real>): (m: real)
    requires |s| > 0
    ensures forall i :: 0 <= i < |s| ==> s[i] <= m
  {
    if |s| == 1 then s[0]
    else
      var init := s[..|s| - 1];
      var m := SeqMax(init);
      assert forall i :: 0 <= i < |init| ==> s[i] == init[i];
      Max(m, s[|s| - 1])
  }

  /** The value is one of the elements. */
  lemma {:induction false} SeqMaxAttained(s: seq<real>)
    requires |s| > 0
    ensures exists i :: 0 <= i < |s| && s[i] == SeqMax(s)
    decreases |s|
  {
    if |s| == 1 {
      assert s[0] == SeqMax(s);
    } else {
      var init := s[..|s| - 1];
      SeqMaxAttained(init);
      var i :| 0 <= i < |init| && init[i] == SeqMax(init);
      if SeqMax(s) == s[|s| - 1] {
        assert s[|s| - 1] == SeqMax(s);
      } else {
        assert s[i] == SeqMax(s);
      }
    }
  }

  lemma SeqMaxStep(s: seq<real>, i: int)
    requires 1 <= i < |s|
    ensures SeqMax(s[..i + 1]) == Max(SeqMax(s[..i]), s[i])
  {
    assert s[..i + 1][..i] == s[..i];
  }

  /**
   * The running minimum and maximum of every coordinate. The scan starts
   * from +/-Infinity, so the first point always sets all four; the loop
   * here starts from that point.
   */
  method Extent(pts: seq<Point>) returns (minX: real, minY: real, maxX: real, maxY: real)
    requires |pts| > 0
    ensures minX == SeqMin(Xs(pts)) && minY == SeqMin(Ys(pts))
    ensures maxX == SeqMax(Xs(pts)) && maxY == SeqMax(Ys(pts))
  {
    ghost var xs, ys := Xs(pts), Ys(pts);
    minX, minY, maxX, maxY := pts[0].x, pts[0].y, pts[0].x, pts[0].y;
    var i := 1;
    assert xs[..1] == [pts[0].x] && ys[..1] == [pts[0].y];
    while i < |pts|
      invariant 1 <= i <= |pts|
      invariant minX == SeqMin(xs[..i]) && minY == SeqMin(ys[..i])
      invariant maxX == SeqMax(xs[..i]) && maxY == SeqMax(ys[..i])
    {
      var p := pts[i];
      SeqMinStep(xs, i);
      SeqMinStep(ys, i);
      SeqMaxStep(xs, i);
      SeqMaxStep(ys, i);
      if p.x < minX { minX := p.x; }
      if p.y < minY { minY := p.y; }
      if p.x > maxX { maxX := p.x; }
      if p.y > maxY { maxY := p.y; }
      i := i + 1;
    }
    assert xs[..i] == xs && ys[..i] == ys;
  }

  /** `Math.max(width, height) / 100`: the extent divided by 100 once more, as the code does. */
  function MaxDim(width: real, height: real): real { Max(width, height) / 100.0 }

  /** `scale`: 1 unless the extent test fires, then `20 / maxDim`. */
  function ScaleFactor(width: real, height: real): (k: real)
    ensures k > 0.0
    ensures k != 1.0 <==> MaxDim(width, height) > 20.0
    ensures k <= 1.0
  {
    var md := MaxDim(width, height);
    if md > 20.0 then 20.0 / md else 1.0
  }

  /** The centred (and possibly rescaled) outlines; `bs` is the non-empty list of kept outlines. */
  function Normalise(bs: seq<seq<Point>>): (r: seq<seq<Point>>)
    requires bs != [] && forall i :: 0 <= i < |bs| ==> |bs[i]| > 1
    ensures |r| == |bs| && forall i :: 0 <= i < |r| ==> |r[i]| == |bs[i]|
  {
    var all := Flatten(bs);
    var width := SeqMax(Xs(all)) - SeqMin(Xs(all));
    var height := SeqMax(Ys(all)) - SeqMin(Ys(all));
    var centred := CentreAll(bs, Centroid(all));
    if MaxDim(width, height) > 20.0 then ScaleAll(centred, ScaleFactor(width, height)) else centred
  }

  lemma FirstNonEmpty(bs: seq<seq<Point>>, i: int)
    requires 0 <= i < |bs| && MultiVertex(bs) != []
    ensures |MultiVertex(bs)[|MultiVertex(bs)| - 1]| > 1
  {
    var r := MultiVertex(bs);
    assert r[|r| - 1] in r;
  }

  /** The layer's outlines as the import stores them in `dxfPolylines`. */
  function ImportPolylines(entities: seq<Entity>, layer: string): (r: seq<seq<Point>>)
    ensures forall i :: 0 <= i < |r| ==> |r[i]| > 1
  {
    var kept := MultiVertex(Converted(LayerPolylines(entities, layer)));
    assert forall i :: 0 <= i < |kept| ==> |kept[i]| > 1 by {
      forall i | 0 <= i < |kept| ensures |kept[i]| > 1 { assert kept[i] in kept; }
    }
    if kept == [] then [] else Normalise(kept)
  }

  // ---------------------------------------------------------------- import properties

  /**
   * The i-th imported outline comes from its own polyline of the layer, the
   * one at position `js[ks[i]]` of the entities; those positions keep the
   * file order, and each outline has its polyline's vertex count, at least two.
   */
  lemma ImportKeepsVertexCounts(entities: seq<Entity>, layer: string)
    ensures var js := LayerIndices(entities, layer);
      var ks := MultiVertexIndices(Converted(LayerPolylines(entities, layer)));
      var r := ImportPolylines(entities, layer);
      |r| == |ks| &&
      (forall i :: 0 <= i < |r| ==>
        ks[i] < |js| && js[ks[i]] < |entities| && Wanted(entities[js[ks[i]]], layer) &&
        |r[i]| == |RawVertices(entities[js[ks[i]]])| > 1) &&
      (forall i, i' :: 0 <= i < i' < |r| ==> js[ks[i]] < js[ks[i']])
  {
    var polys := LayerPolylines(entities, layer);
    var js := LayerIndices(entities, layer);
    var conv := Converted(polys);
    var kept := MultiVertex(conv);
    var ks := MultiVertexIndices(conv);
    var r := ImportPolylines(entities, layer);
    LayerAtIndices(entities, layer);
    MultiVertexAtIndices(conv);
    forall i | 0 <= i < |r|
      ensures ks[i] < |js| && js[ks[i]] < |entities| && Wanted(entities[js[ks[i]]], layer)
      ensures |r[i]| == |RawVertices(entities[js[ks[i]]])| > 1
    {
      assert kept[i] == conv[ks[i]];
      assert polys[ks[i]] == entities[js[ks[i]]];
    }
  }

  lemma ShiftedAppend(a: seq<Point>, b: seq<Point>, c: Point)
    ensures Shifted(a + b, c) == Shifted(a, c) + Shifted(b, c)
  {
  }

  /** Centring every outline is centring the flattened list. */
  lemma {:induction false} FlattenCentred(bs: seq<seq<Point>>, c: Point)
    ensures Flatten(CentreAll(bs, c)) == Shifted(Flatten(bs), c)
    decreases |bs|
  {
    if bs != [] {
      var init := bs[..|bs| - 1];
      FlattenCentred(init, c);
      assert CentreAll(bs, c)[..|bs| - 1] == CentreAll(init, c);
      ShiftedAppend(Flatten(init), bs[|bs| - 1], c);
    }
  }

  lemma {:induction false} SumShifted(pts: seq<Point>, c: Point)
    ensures SumPoints(Shifted(pts, c)).x == SumPoints(pts).x - |pts| as real * c.x
    ensures SumPoints(Shifted(pts, c)).y == SumPoints(pts).y - |pts| as real * c.y
    decreases |pts|
  {
    if pts != [] {
      var init := pts[..|pts| - 1];
      SumShifted(init, c);
      assert Shifted(pts, c)[..|pts| - 1] == Shifted(init, c);
    }
  }

  lemma MeanCancels(t: real, s: real, n: real, c: real)
    requires n > 0.0 && c == s / n && t == s - n * c
    ensures t == 0.0
  {
  }

  lemma ShiftedByCentroid(all: seq<Point>)
    requires |all| > 0
    ensures SumPoints(Shifted(all, Centroid(all))) == Point(0.0, 0.0)
  {
    var c := Centroid(all);
    var n := |all| as real;
    var sum := SumPoints(all);
    assert c.x == sum.x / n && c.y == sum.y / n;
    SumShifted(all, c);
    var t := SumPoints(Shifted(all, c));
    MeanCancels(t.x, sum.x, n, c.x);
    MeanCancels(t.y, sum.y, n, c.y);
  }

  /** After centring, the coordinates of all points sum to (0, 0). */
  lemma CentredSumsToZero(bs: seq<seq<Point>>)
    requires |Flatten(bs)| > 0
    ensures SumPoints(Flatten(CentreAll(bs, Centroid(Flatten(bs))))) == Point(0.0, 0.0)
  {
    var all := Flatten(bs);
    FlattenCentred(bs, Centroid(all));
    ShiftedByCentroid(all);
  }

  /** Centring and the optional rescale leave the points summing to (0, 0). */
  lemma NormaliseCentred(bs: seq<seq<Point>>)
    requires bs != [] && forall i :: 0 <= i < |bs| ==> |bs[i]| > 1
    ensures SumPoints(Flatten(Normalise(bs))) == Point(0.0, 0.0)
  {
    var all := Flatten(bs);
    var width := SeqMax(Xs(all)) - SeqMin(Xs(all));
    var height := SeqMax(Ys(all)) - SeqMin(Ys(all));
    var centred := CentreAll(bs, Centroid(all));
    CentredSumsToZero(bs);
    if MaxDim(width, height) > 20.0 {
      var k := ScaleFactor(width, height);
      FlattenScaled(centred, k);
      SumScaled(Flatten(centred), k);
    }
  }

  /** The import's outlines are centred: their points sum to (0, 0) whether or not they were rescaled. */
  lemma ImportIsCentred(entities: seq<Entity>, layer: string)
    ensures SumPoints(Flatten(ImportPolylines(entities, layer))) == Point(0.0, 0.0)
  {
    var kept := MultiVertex(Converted(LayerPolylines(entities, layer)));
    if kept != [] {
      forall i | 0 <= i < |kept| ensures |kept[i]| > 1 { assert kept[i] in kept; }
      NormaliseCentred(kept);
    }
  }

  lemma ScaledAppend(a: seq<Point>, b: seq<Point>, k: real)
    ensures Scaled(a + b, k) == Scaled(a, k) + Scaled(b, k)
  {
    var l, r := Scaled(a + b, k), Scaled(a, k) + Scaled(b, k);
    forall i | 0 <= i < |l|
      ensures l[i] == r[i]
    {
      if i < |a| {
        assert (a + b)[i] == a[i];
      } else {
        assert (a + b)[i] == b[i - |a|];
      }
    }
  }

  lemma {:induction false} FlattenScaled(bs: seq<seq<Point>>, k: real)
    ensures Flatten(ScaleAll(bs, k)) == Scaled(Flatten(bs), k)
    decreases |bs|
  {
    if bs != [] {
      var init := bs[..|bs| - 1];
      FlattenScaled(init, k);
      assert ScaleAll(bs, k)[..|bs| - 1] == ScaleAll(init, k);
      ScaledAppend(Flatten(init), bs[|bs| - 1], k);
    }
  }

  lemma Distribute(a: real, b: real, k: real)
    ensures (a + b) * k == a * k + b * k
  {
  }

  lemma ScaledPrefix(pts: seq<Point>, k: real)
    requires pts != []
    ensures Scaled(pts, k)[..|pts| - 1] == Scaled(pts[..|pts| - 1], k)
    ensures Scaled(pts, k)[|pts| - 1] == Point(pts[|pts| - 1].x * k, pts[|pts| - 1].y * k)
  {
    var init := pts[..|pts| - 1];
    assert forall i :: 0 <= i < |init| ==> Scaled(pts, k)[i] == Scaled(init, k)[i];
  }

  lemma SumSnoc(pts: seq<Point>)
    requires pts != []
    ensures SumPoints(pts) == Point(SumPoints(pts[..|pts| - 1]).x + pts[|pts| - 1].x, SumPoints(pts[..|pts| - 1]).y + pts[|pts| - 1].y)
  {
  }

  lemma {:induction false} SumScaled(pts: seq<Point>, k: real)
    ensures SumPoints(Scaled(pts, k)) == Point(SumPoints(pts).x * k, SumPoints(pts).y * k)
    decreases |pts|
  {
    if pts != [] {
      var init := pts[..|pts| - 1];
      var last := pts[|pts| - 1];
      var sp := Scaled(pts, k);
      SumScaled(init, k);
      ScaledPrefix(pts, k);
      SumSnoc(pts);
      SumSnoc(sp);
      var a := SumPoints(init);
      Distribute(a.x, last.x, k);
      Distribute(a.y, last.y, k);
    }
  }

  /** The extent after a rescale: `20 / (max(w, h) / 100) * max(w, h)` is 2000 whatever the input. */
  lemma RescaledExtent(width: real, height: real)
    requires MaxDim(width, height) > 20.0
    ensures Max(width, height) * ScaleFactor(width, height) == 2000.0
  {
    var m := Max(width, height);
    assert ScaleFactor(width, height) == 20.0 / (m / 100.0);
    assert 20.0 / (m / 100.0) == 2000.0 / m;
  }

  // ---------------------------------------------------------------- pending shapes

  /** A shape waiting in the review panel; once edited, the height field holds `parseFloat` of the input. */
  datatype Pending = Pending(boundary: seq<Point>, name: string, height: Height, isCore: bool)

  /** `DXF Shape ${idx + 1}`, 3 m high, a volume. */
  function PendingShapes(bs: seq<seq<Point>>): (r: seq<Pending>)
    ensures |r| == |bs|
    ensures forall i :: 0 <= i < |r| ==> r[i].boundary == bs[i] && r[i].height == Val(3.0) && !r[i].isCore
  {
    seq(|bs|, i requires 0 <= i < |bs| => Pending(bs[i], "DXF Shape " + NatToString(i + 1), Val(3.0), false))
  }

  /** The review panel's name, height and type controls each change one field of one pending shape. */
  function EditPending(shapes: seq<Pending>, idx: int, edited: Pending -> Pending): (r: seq<Pending>)
    ensures |r| == |shapes|
    ensures forall i :: 0 <= i < |r| && i != idx ==> r[i] == shapes[i]
    ensures 0 <= idx < |shapes| ==> r[idx] == edited(shapes[idx])
  {
    seq(|shapes|, i requires 0 <= i < |shapes| => if i == idx then edited(shapes[i]) else shapes[i])
  }

  function RenamePending(shapes: seq<Pending>, idx: int, name: string): seq<Pending> {
    EditPending(shapes, idx, (s: Pending) => s.(name := name))
  }

  /** The height field stores `parseFloat(value)`: NaN once the field holds no number. */
  function SetPendingHeight(shapes: seq<Pending>, idx: int, input: Option<real>): seq<Pending> {
    EditPending(shapes, idx, (s: Pending) => s.(height := Parsed(input)))
  }

  function SetPendingCore(shapes: seq<Pending>, idx: int, isCore: bool): seq<Pending> {
    EditPending(shapes, idx, (s: Pending) => s.(isCore := isCore))
  }

  /** The record "Add All" hands to `onAddSpace` for each pending shape: on the ground, with the reviewed fields. */
  function AddedRecord(p: Pending): Space {
    Space(p.name, p.boundary, p.height, Some(0.0), p.isCore, Unspecified)
  }

  /**
   * The records of "Add All", in the order of the pending list. The handler
   * then empties the pending list (`setPendingImportedShapes([])`), so the
   * review panel starts from nothing; see `History.AddAll` for the effect on
   * the volume list.
   */
  function AddedRecords(pending: seq<Pending>): (r: seq<Space>)
    ensures |r| == |pending|
    ensures forall i :: 0 <= i < |r| ==> r[i] == AddedRecord(pending[i])
  {
    seq(|pending|, i requires 0 <= i < |pending| => AddedRecord(pending[i]))
  }

  /** Shapes added straight after the import are 3 m volumes on the ground with the imported outlines. */
  lemma ImportedVolumes(bs: seq<seq<Point>>)
    ensures var r := AddedRecords(PendingShapes(bs));
      |r| == |bs| && Mains(r) == r &&
      forall i :: 0 <= i < |r| ==> r[i].boundary == bs[i] && EffHeight(r[i]) == 3.0 && EffBase(r[i]) == 0.0
  {
    var p := PendingShapes(bs);
    var r := AddedRecords(p);
    forall i | 0 <= i < |r|
      ensures !r[i].isCore && r[i].boundary == bs[i] && EffHeight(r[i]) == 3.0 && EffBase(r[i]) == 0.0
    {
      assert r[i] == AddedRecord(p[i]);
    }
    NoCoresKept(r);
  }

  lemma {:induction false} NoCoresKept(r: seq<Space>)
    requires forall i :: 0 <= i < |r| ==> !r[i].isCore
    ensures Mains(r) == r
    decreases |r|
  {
    if r != [] {
      NoCoresKept(r[..|r| - 1]);
    }
  }
}
