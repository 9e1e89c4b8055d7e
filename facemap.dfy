/**
 * Logical faces of an extruded volume.
 *
 * Every volume is drawn as an extrusion of its n-vertex boundary, and the
 * renderer keeps a table from triangle index to "logical face": the top cap
 * is face 0, the bottom cap face 1 and the side over edge k face 2 + k. The
 * table drives picking (a clicked triangle becomes a face, a side face an
 * edge) and highlighting (every triangle of the selected or hovered face is
 * recoloured in the per-vertex colour buffer).
 */
module FaceMap {
  import opened Wrappers

  /** Triangles per cap, `n - 2`; for n < 2 the cap loops do not run, so no cap triangle. */
  function CapCount(n: nat): (c: nat)
    ensures n >= 2 ==> c == n - 2
    ensures n < 2 ==> c == 0
  {
    if n >= 2 then n - 2 else 0
  }

  /** The number of table entries: two caps and two triangles per side. */
  function FaceEntryCount(n: nat): nat { 2 * CapCount(n) + 2 * n }

  /** The logical face the table gives triangle t. */
  function FaceId(n: nat, t: nat): int
    requires t < FaceEntryCount(n)
  {
    var c := CapCount(n);
    if t < c then 0 else if t < 2 * c then 1 else 2 + (t - 2 * c) / 2
  }

  /** The whole table; it depends on the vertex count alone, not on coordinates or height. */
  function FaceMapOf(n: nat): map<int, int> {
    map t | 0 <= t < FaceEntryCount(n) :: FaceId(n, t)
  }

  lemma InFaceMap(n: nat, t: int)
    ensures t in FaceMapOf(n) <==> 0 <= t < FaceEntryCount(n)
    ensures t in FaceMapOf(n) ==> FaceMapOf(n)[t] == FaceId(n, t)
  {
    if 0 <= t < FaceEntryCount(n) {
      assert t in FaceMapOf(n);
    }
  }

  /** The three loops with the running triangle counter `triIdx`. */
  method BuildFaceMap(n: nat) returns (faceMap: map<int, int>)
    ensures faceMap == FaceMapOf(n)
  {
    var facesPerCap: int := n - 2;
    faceMap := map[];
    var triIdx := 0;
    var i := 0;
    while i < facesPerCap
      invariant 0 <= i <= CapCount(n) && triIdx == i
      invariant forall t :: t in faceMap <==> 0 <= t < triIdx
      invariant forall t :: t in faceMap ==> faceMap[t] == 0
    {
      faceMap := faceMap[triIdx := 0];
      i, triIdx := i + 1, triIdx + 1;
    }
    i := 0;
    while i < facesPerCap
      invariant 0 <= i <= CapCount(n) && triIdx == CapCount(n) + i
      invariant forall t :: t in faceMap <==> 0 <= t < triIdx
      invariant forall t :: t in faceMap ==> faceMap[t] == (if t < CapCount(n) then 0 else 1)
    {
      faceMap := faceMap[triIdx := 1];
      i, triIdx := i + 1, triIdx + 1;
    }
    var side := 0;
    while side < n
      invariant 0 <= side <= n && triIdx == 2 * CapCount(n) + 2 * side
      invariant forall t :: t in faceMap <==> 0 <= t < triIdx
      invariant forall t :: t in faceMap ==> 0 <= t < FaceEntryCount(n) && faceMap[t] == FaceId(n, t)
    {
      faceMap := faceMap[triIdx := 2 + side];
      triIdx := triIdx + 1;
      faceMap := faceMap[triIdx := 2 + side];
      triIdx := triIdx + 1;
      side := side + 1;
    }
  }

  /** The triangles a table assigns to a logical face. */
  function TrianglesOf(faceMap: map<int, int>, face: int): set<int> {
    set t | t in faceMap && faceMap[t] == face
  }

  /** The integers lo .. hi - 1. */
  function Range(lo: int, hi: int): (s: set<int>)
    ensures forall t :: t in s <==> lo <= t < hi
    ensures lo <= hi ==> |s| == hi - lo
    decreases hi - lo
  {
    if lo >= hi then {} else Range(lo, hi - 1) + {hi - 1}
  }

  /** For n >= 3 the table has 4n - 4 entries. */
  lemma FaceMapSize(n: nat)
    requires n >= 3
    ensures |FaceMapOf(n)| == 4 * n - 4
  {
    var m := FaceMapOf(n);
    forall t
      ensures t in m.Keys <==> t in Range(0, 4 * n - 4)
    {
      InFaceMap(n, t);
    }
    assert m.Keys == Range(0, 4 * n - 4);
  }

  /** The top cap owns triangles 0 .. c - 1 and the bottom cap c .. 2c - 1, where c = n - 2. */
  lemma CapTriangles(n: nat)
    ensures TrianglesOf(FaceMapOf(n), 0) == Range(0, CapCount(n))
    ensures TrianglesOf(FaceMapOf(n), 1) == Range(CapCount(n), 2 * CapCount(n))
  {
    var c := CapCount(n);
    var m := FaceMapOf(n);
    forall t
      ensures t in TrianglesOf(m, 0) <==> t in Range(0, c)
      ensures t in TrianglesOf(m, 1) <==> t in Range(c, 2 * c)
    {
      InFaceMap(n, t);
      if t in m && t >= 2 * c {
        assert (t - 2 * c) / 2 >= 0;
      }
    }
  }

  /** Side k owns exactly the two triangles 2c + 2k and 2c + 2k + 1. */
  lemma SideTriangles(n: nat, k: int)
    requires 0 <= k < n
    ensures TrianglesOf(FaceMapOf(n), 2 + k) == {2 * CapCount(n) + 2 * k, 2 * CapCount(n) + 2 * k + 1}
  {
    var c := CapCount(n);
    var m := FaceMapOf(n);
    forall t | t in m && m[t] == 2 + k
      ensures t == 2 * c + 2 * k || t == 2 * c + 2 * k + 1
    {
      assert 2 * c <= t;
      var d := t - 2 * c;
      assert d / 2 == k;
      assert d == 2 * (d / 2) + d % 2;
    }
    assert FaceId(n, 2 * c + 2 * k) == 2 + k;
    assert FaceId(n, 2 * c + 2 * k + 1) == 2 + k;
  }

  /** Face ids other than 0 .. n + 1 own no triangle. */
  lemma NoOtherFaces(n: nat, face: int)
    requires face < 0 || face >= n + 2 || (n < 3 && face < 2)
    ensures TrianglesOf(FaceMapOf(n), face) == {}
  {
    var m := FaceMapOf(n);
    forall t | t in m
      ensures m[t] != face
    {
      var c := CapCount(n);
      if t >= 2 * c {
        assert (t - 2 * c) / 2 < n;
      }
    }
  }

  predicate StrictlyIncreasing(s: seq<int>) {
    forall i, j :: 0 <= i < j < |s| ==> s[i] < s[j]
  }

  lemma NonEmptyHasElement(s: set<int>)
    requires s != {}
    ensures exists x :: x in s
  {
    if forall x :: x !in s {
      assert false;
    }
  }

  /** The least element of a non-empty set. */
  method SetMinimum(s: set<int>) returns (x: int)
    requires s != {}
    ensures x in s
    ensures forall y :: y in s ==> x <= y
  {
    NonEmptyHasElement(s);
    x :| x in s;
    var rest := s - {x};
    while rest != {}
      invariant rest <= s && x in s
      invariant forall y :: y in s && y !in rest ==> x <= y
      decreases |rest|
    {
      NonEmptyHasElement(rest);
      var y :| y in rest;
      if y < x {
        x := y;
      }
      rest := rest - {y};
    }
  }

  /**
   * `getTrianglesForLogicalFace`: the keys whose value is the face, in the
   * order `Object.entries` lists integer keys (ascending).
   */
  method TrianglesForFace(faceMap: map<int, int>, face: int) returns (triangles: seq<int>)
    ensures forall t :: t in triangles <==> t in TrianglesOf(faceMap, face)
    ensures StrictlyIncreasing(triangles)
  {
    triangles := [];
    var remaining := faceMap.Keys;
    while remaining != {}
      invariant remaining <= faceMap.Keys
      invariant forall a, b :: a in faceMap && a !in remaining && b in remaining ==> a < b
      invariant forall t :: t in triangles <==> t in faceMap && t !in remaining && faceMap[t] == face
      invariant StrictlyIncreasing(triangles)
      decreases |remaining|
    {
      var t := SetMinimum(remaining);
      if faceMap[t] == face {
        forall i | 0 <= i < |triangles|
          ensures triangles[i] < t
        {
          assert triangles[i] in triangles;
        }
        triangles := triangles + [t];
      }
      remaining := remaining - {t};
    }
  }

  datatype Rgb = Rgb(r: real, g: real, b: real) {
    function Component(k: int): real
      requires 0 <= k < 3
    {
      if k == 0 then r else if k == 1 then g else b
    }
  }

  /** The highlight colours of a selected and of a hovered face. */
  const SelectedColor := Rgb(0.92, 0.7, 0.03)
  const HoveredColor := Rgb(0.98, 0.75, 0.14)

  datatype Highlight = NoHighlight | Highlighted(face: int, color: Rgb)

  /**
   * Which face is highlighted: a selected face that is a non-negative number
   * wins; otherwise a non-negative hovered face; otherwise none.
   */
  function HighlightOf(selected: Option<int>, hovered: Option<int>): (h: Highlight)
    ensures selected.Some? && selected.value >= 0 ==> h == Highlighted(selected.value, SelectedColor)
    ensures !(selected.Some? && selected.value >= 0) && hovered.Some? && hovered.value >= 0
      ==> h == Highlighted(hovered.value, HoveredColor)
    ensures h.NoHighlight? <==> !(selected.Some? && selected.value >= 0) && !(hovered.Some? && hovered.value >= 0)
  {
    if selected.Some? && selected.value >= 0 then Highlighted(selected.value, SelectedColor)
    else if hovered.Some? && hovered.value >= 0 then Highlighted(hovered.value, HoveredColor)
    else NoHighlight
  }

  /**
   * Colour component j of the buffer (nine per triangle: three vertices of
   * r, g, b): the highlight colour if triangle j / 9 belongs to the
   * highlighted face, the base colour otherwise.
   */
  function ExpectedComponent(faceMap: map<int, int>, h: Highlight, base: Rgb, j: nat): real {
    var t := j / 9;
    if h.Highlighted? && t in faceMap && faceMap[t] == h.face then h.color.Component(j % 3)
    else base.Component(j % 3)
  }

  lemma TriangleOfComponent(j: int, t: int)
    requires 0 <= j
    ensures 9 * t <= j < 9 * t + 9 <==> j / 9 == t
  {
  }

  /** Component k of vertex a sits at index 3a + k. */
  lemma ComponentIndex(a: int, k: int)
    requires 0 <= a && 0 <= k < 3
    ensures (3 * a + k) % 3 == k && (3 * a + k) / 3 == a
  {
  }

  /** The inner loop of the highlight effect: the nine components of triangle t take colour c. */
  method PaintTriangle(colorArr: array<real>, t: int, c: Rgb)
    requires 0 <= t && 9 * t + 9 <= colorArr.Length
    modifies colorArr
    ensures forall j :: 0 <= j < colorArr.Length ==>
      colorArr[j] == (if 9 * t <= j < 9 * t + 9 then c.Component(j % 3) else old(colorArr[j]))
  {
    var v := 0;
    while v < 3
      invariant 0 <= v <= 3
      invariant forall j :: 0 <= j < colorArr.Length ==>
        colorArr[j] == (if 9 * t <= j < 9 * t + 3 * v then c.Component(j % 3) else old(colorArr[j]))
    {
      var idx := t * 9 + v * 3;
      ComponentIndex(3 * t + v, 0);
      ComponentIndex(3 * t + v, 1);
      ComponentIndex(3 * t + v, 2);
      colorArr[idx] := c.r;
      colorArr[idx + 1] := c.g;
      colorArr[idx + 2] := c.b;
      v := v + 1;
    }
  }

  /**
   * The highlight effect: a buffer of `faceCount * 3` vertex colours reset to
   * the base colour, then components `triIdx * 9 + i * 3 + c` of the
   * highlighted face's triangles overwritten with the highlight colour.
   */
  method HighlightBuffer(faceMap: map<int, int>, faceCount: nat, selected: Option<int>, hovered: Option<int>, base: Rgb)
    returns (buffer: seq<real>)
    ensures |buffer| == 9 * faceCount
    ensures forall j :: 0 <= j < |buffer| ==> buffer[j] == ExpectedComponent(faceMap, HighlightOf(selected, hovered), base, j)
  {
    var colorArr := new real[9 * faceCount];
    var i := 0;
    while i < faceCount * 3
      invariant 0 <= i <= faceCount * 3
      invariant forall j :: 0 <= j < 3 * i ==> colorArr[j] == base.Component(j % 3)
    {
      ComponentIndex(i, 0);
      ComponentIndex(i, 1);
      ComponentIndex(i, 2);
      colorArr[3 * i] := base.r;
      colorArr[3 * i + 1] := base.g;
      colorArr[3 * i + 2] := base.b;
      i := i + 1;
    }
    var h := HighlightOf(selected, hovered);
    if h.Highlighted? {
      var c := h.color;
      var triangles := TrianglesForFace(faceMap, h.face);
      var p := 0;
      while p < |triangles|
        invariant 0 <= p <= |triangles|
        invariant forall j :: 0 <= j < colorArr.Length ==>
          colorArr[j] == (if j / 9 in triangles[..p] then c.Component(j % 3) else base.Component(j % 3))
      {
        var triIdx := triangles[p];
        if 0 <= triIdx < faceCount {
          PaintTriangle(colorArr, triIdx, c);
          forall j | 0 <= j < colorArr.Length
            ensures j / 9 in triangles[..p + 1] <==> j / 9 in triangles[..p] || 9 * triIdx <= j < 9 * triIdx + 9
          {
            assert triangles[..p + 1] == triangles[..p] + [triIdx];
            TriangleOfComponent(j, triIdx);
          }
        } else {
          assert triangles[..p + 1] == triangles[..p] + [triIdx];
        }
        p := p + 1;
      }
      assert triangles[..|triangles|] == triangles;
    }
    buffer := colorArr[..];
  }

  /** With neither a selected nor a hovered face, every component keeps the base colour. */
  lemma NothingHighlighted(faceMap: map<int, int>, selected: Option<int>, hovered: Option<int>, base: Rgb, j: nat)
    requires selected.None? || selected.value < 0
    requires hovered.None? || hovered.value < 0
    ensures ExpectedComponent(faceMap, HighlightOf(selected, hovered), base, j) == base.Component(j % 3)
  {
  }

  /** `handlePointerDown`: the face handed to `onFaceSelect`, or None when the handler returns early. */
  function PickedFace(faceMap: map<int, int>, triFaceIdx: int): (face: Option<int>)
    ensures face.Some? <==> triFaceIdx in faceMap && faceMap[triFaceIdx] >= 0
    ensures face.Some? ==> face.value == faceMap[triFaceIdx]
  {
    if triFaceIdx in faceMap && faceMap[triFaceIdx] >= 0 then Some(faceMap[triFaceIdx]) else None
  }

  /** `handlePointerOver`: the hovered face, undefined (None) for a triangle outside the table. */
  function HoveredFace(faceMap: map<int, int>, triFaceIdx: int): (r: Option<int>)
    ensures r.Some? <==> triFaceIdx in faceMap
    ensures r.Some? ==> r.value == faceMap[triFaceIdx]
  {
    if triFaceIdx in faceMap then Some(faceMap[triFaceIdx]) else None
  }

  /** The selection state: volume, logical face and (for a side face) edge. */
  datatype Selection = Selection(shapeIdx: Option<int>, faceIdx: Option<int>, edgeIdx: Option<int>)

  const NoSelection := Selection(None, None, None)

  /** `handleFaceSelect`: a missing or negative face clears the selection; a side face also selects its edge. */
  function FaceSelect(faceIndex: Option<int>, shapeIdx: int): (s: Selection)
    ensures faceIndex.None? || faceIndex.value < 0 ==> s == NoSelection
    ensures faceIndex.Some? && faceIndex.value >= 0 ==>
      s.shapeIdx == Some(shapeIdx) && s.faceIdx == faceIndex &&
      (s.edgeIdx.Some? <==> faceIndex.value >= 2) &&
      (s.edgeIdx.Some? ==> s.edgeIdx.value == faceIndex.value - 2)
  {
    if faceIndex.None? || faceIndex.value < 0 then NoSelection
    else Selection(Some(shapeIdx), faceIndex, if faceIndex.value >= 2 then Some(faceIndex.value - 2) else None)
  }

  /**
   * Clicking triangle t of a volume's own table selects its logical face;
   * a side triangle selects edge k < n, the edge whose two triangles are
   * 2c + 2k and 2c + 2k + 1, and a cap triangle selects no edge.
   */
  lemma PickResolvesEdge(n: nat, shapeIdx: int, t: nat)
    requires t < FaceEntryCount(n)
    ensures PickedFace(FaceMapOf(n), t).Some?
    ensures FaceSelect(PickedFace(FaceMapOf(n), t), shapeIdx).faceIdx == Some(FaceId(n, t))
    ensures FaceSelect(PickedFace(FaceMapOf(n), t), shapeIdx).edgeIdx.Some? <==> t >= 2 * CapCount(n)
    ensures var e := FaceSelect(PickedFace(FaceMapOf(n), t), shapeIdx).edgeIdx;
      e.Some? ==> 0 <= e.value < n && (t == 2 * CapCount(n) + 2 * e.value || t == 2 * CapCount(n) + 2 * e.value + 1)
  {
    var c := CapCount(n);
    if t >= 2 * c {
      var k := (t - 2 * c) / 2;
      assert 0 <= k < n;
      assert t == 2 * c + 2 * k || t == 2 * c + 2 * k + 1;
    }
  }
}
