/**
 * Polygon area by the shoelace formula, as both copies of the metrics compute
 * it: the sum over the implicitly closed boundary of x_i * y_{i+1} - x_{i+1} * y_i,
 * then its absolute value halved.
 */
module Polygon {
  import opened Volumes

  /** One shoelace term: x1 * y2 - x2 * y1. */
  function Cross(p: Point, q: Point): real { p.x * q.y - q.x * p.y }

  /** The shoelace sum over the first k edges (edge i runs from vertex i to vertex (i + 1) % n). */
  function ShoelacePrefix(b: seq<Point>, k: nat): real
    requires k <= |b|
  {
    if k == 0 then 0.0 else ShoelacePrefix(b, k - 1) + Cross(b[k - 1], b[k % |b|])
  }

  /** Twice the signed area of the polygon. */
  function Shoelace(b: seq<Point>): real { ShoelacePrefix(b, |b|) }

  /** `Math.abs(sum) / 2`. */
  function Area(b: seq<Point>): (a: real)
    ensures a >= 0.0
  {
    Abs(Shoelace(b)) / 2.0
  }

  /** The loop `for (i = 0, n = boundary.length; i < n; i++) area += ...; area = Math.abs(area) / 2`. */
  method ShoelaceArea(b: seq<Point>) returns (area: real)
    ensures area == Area(b)
  {
    var n := |b|;
    var sum := 0.0;
    var i := 0;
    while i < n
      invariant 0 <= i <= n
      invariant sum == ShoelacePrefix(b, i)
    {
      var p1 := b[i];
      var p2 := b[(i + 1) % n];
      sum := sum + (p1.x * p2.y - p2.x * p1.y);
      i := i + 1;
    }
    area := Abs(sum) / 2.0;
  }

  /** The axis-aligned rectangle the rectangle tool draws between two corners. */
  function Rectangle(x1: real, y1: real, x2: real, y2: real): (b: seq<Point>)
    ensures |b| == 4
  {
    [Point(x1, y1), Point(x2, y1), Point(x2, y2), Point(x1, y2)]
  }

  /** The rectangle's area is its width times its depth, whichever corner is dragged first (so for either winding). */
  lemma RectangleArea(x1: real, y1: real, x2: real, y2: real)
    ensures Area(Rectangle(x1, y1, x2, y2)) == Abs(x2 - x1) * Abs(y2 - y1)
  {
    var b := Rectangle(x1, y1, x2, y2);
    assert ShoelacePrefix(b, 1) == Cross(b[0], b[1]);
    assert ShoelacePrefix(b, 2) == ShoelacePrefix(b, 1) + Cross(b[1], b[2]);
    assert ShoelacePrefix(b, 3) == ShoelacePrefix(b, 2) + Cross(b[2], b[3]);
    assert ShoelacePrefix(b, 4) == ShoelacePrefix(b, 3) + Cross(b[3], b[0]);
    assert Shoelace(b) == 2.0 * ((x2 - x1) * (y2 - y1));
    AbsMul(x2 - x1, y2 - y1);
  }

  lemma AbsMul(a: real, b: real)
    ensures Abs(a * b) == Abs(a) * Abs(b)
  {
    if a >= 0.0 && b >= 0.0 {
    } else if a >= 0.0 {
      assert a * b <= 0.0;
    } else if b >= 0.0 {
      assert a * b <= 0.0;
    } else {
      assert a * b >= 0.0;
    }
  }

  /**
   * A w x h rectangle drawn from the origin has area w * h in both windings:
   * [(0,0),(w,0),(w,h),(0,h)] and [(0,h),(w,h),(w,0),(0,0)] (w = 4, h = 3 gives 12).
   */
  lemma RectangleAreaBothWindings(w: real, h: real)
    requires w >= 0.0 && h >= 0.0
    ensures Area(Rectangle(0.0, 0.0, w, h)) == w * h
    ensures Area(Rectangle(0.0, h, w, 0.0)) == w * h
  {
    RectangleArea(0.0, 0.0, w, h);
    RectangleArea(0.0, h, w, 0.0);
  }
}
