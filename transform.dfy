/**
 * Cursor arithmetic of the drawing tools and the plan calibration.
 *
 * A mouse event is turned into a point on the ground plane by a ray cast
 * (not modelled: the hit point is an input). With a plan image loaded the
 * point is mapped into plan coordinates, `p / pdfScale + pdfOffset`; with
 * snapping on it is rounded to the grid, `Math.round(p / g) * g`.
 * Calibration picks two plan points and sets `pdfScale` from the real
 * distance the user types.
 */
module PlanTransform {
  import opened Wrappers
  import opened Volumes

  /** `gridSnapSize`: the viewer snaps to a 1-unit grid. */
  const GridSnapSize: real := 1.0

  /** `Math.round`: the nearest integer, halves rounded up. */
  function Round(x: real): (r: int)
    ensures r as real - 0.5 <= x < r as real + 0.5
  {
    (x + 0.5).Floor
  }

  /** `Math.round(v / g) * g`. */
  function Snap(v: real, g: real): real
    requires g != 0.0
  {
    Round(v / g) as real * g
  }

  lemma ScaleOffset(d: real, g: real)
    requires g > 0.0 && -0.5 <= d <= 0.5
    ensures -(g / 2.0) <= d * g <= g / 2.0
  {
  }

  /** A snapped coordinate is at most half a grid cell from the original. */
  lemma SnapWithinHalfCell(v: real, g: real)
    requires g > 0.0
    ensures Abs(Snap(v, g) - v) <= g / 2.0
  {
    var q := v / g;
    var r := Round(q) as real;
    assert v == q * g;
    assert Snap(v, g) - v == (r - q) * g;
    ScaleOffset(r - q, g);
  }

  /** Snapping an already snapped coordinate changes nothing. */
  lemma SnapIdempotent(v: real, g: real)
    requires g != 0.0
    ensures Snap(Snap(v, g), g) == Snap(v, g)
  {
    var k := Round(v / g);
    assert Snap(v, g) / g == k as real;
    assert Round(k as real) == k;
  }

  /** On the viewer's 1-unit grid a snapped coordinate is a whole number. */
  lemma SnapToUnitGrid(v: real)
    ensures Snap(v, GridSnapSize) == Round(v) as real
    ensures Abs(Snap(v, GridSnapSize) - v) <= 0.5
  {
    SnapWithinHalfCell(v, GridSnapSize);
  }

  /** A whole number of grid cells. */
  predicate OnGrid(v: real, g: real)
    requires g != 0.0
  {
    (v / g).Floor as real == v / g
  }

  lemma SnapOnGrid(v: real, g: real)
    requires g != 0.0
    ensures OnGrid(Snap(v, g), g)
  {
    var k := Round(v / g);
    assert Snap(v, g) / g == k as real;
  }

  /** `(p / pdfScale) + pdfOffset`: a ground-plane point in plan coordinates. */
  function PlanPoint(p: Point, scale: real, offset: Point): (q: Point)
    requires scale != 0.0
    ensures GroundPoint(q, scale, offset) == p
  {
    Point(p.x / scale + offset.x, p.y / scale + offset.y)
  }

  /** The inverse map, from plan coordinates back to the ground plane. */
  function GroundPoint(q: Point, scale: real, offset: Point): Point {
    Point((q.x - offset.x) * scale, (q.y - offset.y) * scale)
  }

  /** The other direction: the plan mapping undoes the inverse map, so for a non-zero scale the two are inverse bijections. */
  lemma PlanRoundTrip(q: Point, scale: real, offset: Point)
    requires scale != 0.0
    ensures PlanPoint(GroundPoint(q, scale, offset), scale, offset) == q
  {
  }

  /**
   * `getWorldPoint` after the ray cast: the plan mapping when a plan image is
   * loaded, then grid snapping when it is on. The scale is never 0 (see
   * CalibrationKeepsScale), which is what the division needs.
   */
  function WorldPoint(hit: Point, planImage: bool, scale: real, offset: Point, snap: bool, g: real): (r: Point)
    requires planImage ==> scale != 0.0
    requires snap ==> g != 0.0
    ensures !snap ==> r == (if planImage then PlanPoint(hit, scale, offset) else hit)
    ensures snap ==> OnGrid(r.x, g) && OnGrid(r.y, g)
  {
    var p := if planImage then PlanPoint(hit, scale, offset) else hit;
    if snap then
      SnapOnGrid(p.x, g);
      SnapOnGrid(p.y, g);
      Point(Snap(p.x, g), Snap(p.y, g))
    else p
  }

  /** Every component of a snapped cursor position is within half a cell of the unsnapped one. */
  lemma WorldPointNearUnsnapped(hit: Point, planImage: bool, scale: real, offset: Point, g: real)
    requires planImage ==> scale != 0.0
    requires g > 0.0
    ensures var r := WorldPoint(hit, planImage, scale, offset, true, g);
      var p := WorldPoint(hit, planImage, scale, offset, false, g);
      Abs(r.x - p.x) <= g / 2.0 && Abs(r.y - p.y) <= g / 2.0
  {
    var p := WorldPoint(hit, planImage, scale, offset, false, g);
    SnapWithinHalfCell(p.x, g);
    SnapWithinHalfCell(p.y, g);
  }

  // ---------------------------------------------------------------- calibration

  /**
   * The calibration state: the points picked so far, the plan scale, and
   * whether the calibrate tool is active.
   */
  datatype Calibration = Calibration(points: seq<Point>, scale: real, active: bool)

  /** The viewer starts with scale 1 and no points. */
  const InitialCalibration := Calibration([], 1.0, false)

  /** A state the viewer can be in: at most two points, and a scale that can be divided by. */
  predicate Valid(c: Calibration) {
    |c.points| <= 2 && c.scale != 0.0
  }

  /**
   * A click with the calibrate tool: ignored without a plan image; otherwise
   * the plan point starts a new pair, completes the pending one, or (after a
   * full pair) starts over.
   */
  function CalibrationClick(c: Calibration, planImage: bool, hit: Point, offset: Point): (r: Calibration)
    requires c.scale != 0.0
    ensures r.scale == c.scale && r.active == c.active
    ensures !planImage ==> r == c
    ensures planImage ==> |r.points| == (if |c.points| == 1 then 2 else 1)
    ensures planImage ==> r.points[|r.points| - 1] == PlanPoint(hit, c.scale, offset)
    ensures planImage && |c.points| == 1 ==> r.points[0] == c.points[0]
  {
    if !planImage then c
    else
      var p := PlanPoint(hit, c.scale, offset);
      var pts := if |c.points| == 0 then [p] else if |c.points| == 1 then [c.points[0], p] else [p];
      c.(points := pts)
  }

  /** `realDist && dist > 0`: the typed distance parses to a non-zero number (None stands for NaN). */
  predicate UsableDistance(realDist: Option<real>, dist: real) {
    realDist.Some? && realDist.value != 0.0 && dist > 0.0
  }

  /**
   * The effect that runs once two points are picked: `dist` is the distance
   * between them (the square root is an input), `realDist` the typed
   * distance. A usable distance sets the scale to `realDist / dist`; in every
   * case the tool is released and the points are cleared.
   */
  function FinishCalibration(c: Calibration, dist: real, realDist: Option<real>): (r: Calibration)
    ensures !(c.active && |c.points| == 2) ==> r == c
    ensures c.active && |c.points| == 2 ==>
      r.points == [] && !r.active &&
      r.scale == (if UsableDistance(realDist, dist) then realDist.value / dist else c.scale)
  {
    if c.active && |c.points| == 2 then
      Calibration([], if UsableDistance(realDist, dist) then realDist.value / dist else c.scale, false)
    else c
  }

  /** Calibration keeps the viewer's state valid: never more than two points, never a zero scale. */
  lemma CalibrationKeepsScale(c: Calibration, planImage: bool, hit: Point, offset: Point, dist: real, realDist: Option<real>)
    requires Valid(c)
    ensures Valid(CalibrationClick(c, planImage, hit, offset))
    ensures Valid(FinishCalibration(c, dist, realDist))
  {
    if c.active && |c.points| == 2 && UsableDistance(realDist, dist) {
      assert realDist.value / dist != 0.0;
    }
  }

  /** Three clicks cycle through the states: one point, a pair, then a fresh start. */
  lemma CalibrationCycle(c: Calibration, hits: seq<Point>, offset: Point)
    requires |c.points| == 0 && c.scale != 0.0 && |hits| == 3
    ensures var c1 := CalibrationClick(c, true, hits[0], offset);
      var c2 := CalibrationClick(c1, true, hits[1], offset);
      var c3 := CalibrationClick(c2, true, hits[2], offset);
      c1.points == [PlanPoint(hits[0], c.scale, offset)] &&
      c2.points == [PlanPoint(hits[0], c.scale, offset), PlanPoint(hits[1], c.scale, offset)] &&
      c3.points == [PlanPoint(hits[2], c.scale, offset)]
  {
  }

  /** A successful calibration makes the picked distance read as the typed one. */
  lemma CalibratedDistance(c: Calibration, dist: real, realDist: real)
    requires c.active && |c.points| == 2 && dist > 0.0 && realDist != 0.0
    ensures FinishCalibration(c, dist, Some(realDist)).scale * dist == realDist
  {
  }
}
