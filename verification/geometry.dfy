/** Points, circles and the metric used to compare them.

    Coordinates are exact reals. Distances are compared through the squared
    Euclidean distance: the square root is monotone on non-negative reals,
    so every comparison, every count of points inside a circle and every
    ordering of a row is the same as with the true distance. A circle's
    radius is accordingly kept squared. */
module Geometry {
  import opened Counting

  /** A position in the plane. */
  datatype Vec2 = Vec2(x: real, y: real)

  /** An input point: only its position matters to the solver. */
  datatype Point = Point(pos: Vec2)

  /** A circle given by its centre and its squared radius. */
  datatype Circle = Circle(pos: Vec2, sqRadius: real)

  function Sq(a: real): (r: real)
    ensures r >= 0.0
  {
    a * a
  }

  /** Squared Euclidean distance between two positions. */
  function SqDist(a: Vec2, b: Vec2): (d: real)
    ensures d >= 0.0
    ensures a == b ==> d == 0.0
  {
    Sq(a.x - b.x) + Sq(a.y - b.y)
  }

  lemma SqDistSymmetric(a: Vec2, b: Vec2)
    ensures SqDist(a, b) == SqDist(b, a)
  {
  }

  /** The row of squared distances from `p` to every input point, in input
      order, `p`'s own entry included when it is one of the points. */
  function DistancesFrom(p: Vec2, pts: seq<Point>): seq<real> {
    seq(|pts|, j requires 0 <= j < |pts| => SqDist(p, pts[j].pos))
  }

  /** The closed disk of `c` holds `p`. A circle of non-negative radius
      holds its own centre; a circle of negative radius holds nothing. */
  function Inside(p: Point, c: Circle): (b: bool)
    ensures p.pos == c.pos && c.sqRadius >= 0.0 ==> b
    ensures c.sqRadius < 0.0 ==> !b
  {
    SqDist(p.pos, c.pos) <= c.sqRadius
  }

  /** How many of the points lie in the closed disk of `c`, counted one
      point after the other. */
  function InsideCount(pts: seq<Point>, c: Circle): (k: nat)
    ensures k <= |pts|
  {
    if |pts| == 0 then 0
    else (if Inside(pts[0], c) then 1 else 0) + InsideCount(pts[1..], c)
  }

  /** Counting the points inside a circle is counting the entries of the
      centre's distance row that are within the radius. */
  lemma {:induction false} InsideCountIsRowCount(pts: seq<Point>, c: Circle)
    ensures InsideCount(pts, c) == CountWithin(DistancesFrom(c.pos, pts), c.sqRadius)
  {
    if |pts| > 0 {
      var row := DistancesFrom(c.pos, pts);
      assert row[1..] == DistancesFrom(c.pos, pts[1..]);
      SqDistSymmetric(pts[0].pos, c.pos);
      InsideCountIsRowCount(pts[1..], c);
    }
  }
}
