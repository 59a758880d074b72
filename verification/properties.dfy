/** What the chosen circles guarantee: each holds at least ⌈n/2⌉ of the
    points, no input point can centre a half-covering circle smaller than
    the first, the pair is determined by the points alone, and two points
    give two zero circles. Also two facts about single coverage radii. */
module TaskProperties {
  import opened Counting
  import opened Sorting
  import opened Geometry
  import opened Task

  // ----- One point's coverage radius -----

  /** The coverage radius is the distance from point i to one of the input
      points, so the circle passes through an input point. */
  lemma CoverRadiusIsADistance(pts: seq<Point>, i: int)
    requires 0 <= i < |pts|
    ensures exists j :: 0 <= j < |pts| && CoverRadius(pts, i) == SqDist(pts[i].pos, pts[j].pos)
  {
    var row := DistancesFrom(pts[i].pos, pts);
    var sorted := SortAscending(row);
    var k := CenterElem(|pts|);
    SortedRowIsCoverRadius(pts, i, sorted);
    CoverRadiusUnique(pts, i, sorted[k], CoverRadius(pts, i));
    var j := IndexOf(row, sorted[k]);
    assert CoverRadius(pts, i) == SqDist(pts[i].pos, pts[j].pos);
  }

  /** Every ascending permutation of a distance row starts with 0: the
      distance from the point to itself, and no distance is smaller. */
  lemma SortedRowStartsAtZero(pts: seq<Point>, i: int, row: seq<real>)
    requires 0 <= i < |pts|
    requires Sorted(row) && multiset(row) == multiset(DistancesFrom(pts[i].pos, pts))
    ensures |row| == |pts| && row[0] == 0.0
  {
    var dists := DistancesFrom(pts[i].pos, pts);
    assert |row| == |multiset(row)| == |pts|;
    assert dists[i] == 0.0;
    assert dists[i] in multiset(dists);
    var j := IndexOf(row, dists[i]);
    assert row[0] in multiset(row);
    var m := IndexOf(dists, row[0]);
  }

  // ----- The selected pair -----

  /** Only one index is the lowest minimum, so the scan's choice is
      forced. */
  lemma LowestMinUnique(key: seq<real>, hi: int, a: int, b: int, skip: int)
    requires LowestMin(key, hi, a, skip) && LowestMin(key, hi, b, skip)
    ensures a == b
  {
    assert key[a] <= key[b] && key[b] <= key[a];
  }

  /** The selected pair is forced: the points determine it, so solving
      the same points twice gives the same circles. */
  lemma SolutionDeterministic(pts: seq<Point>, c1: int, c2: int, d1: int, d2: int)
    requires BestPair(CoverRadii(pts), c1, c2) && BestPair(CoverRadii(pts), d1, d2)
    ensures c1 == d1 && c2 == d2
    ensures ChosenCircles(pts, c1, c2) == ChosenCircles(pts, d1, d2)
  {
    var key := CoverRadii(pts);
    LowestMinUnique(key, |key|, c1, d1, -1);
    LowestMinUnique(key, |key|, c2, d2, c1);
  }

  /** Both circles hold at least ⌈n/2⌉ points, hence at least the n/2 the
      test asks for; the centres are distinct input points; the first
      radius is the smaller one. */
  lemma SolutionCovers(pts: seq<Point>, c1: int, c2: int)
    requires BestPair(CoverRadii(pts), c1, c2)
    ensures c1 != c2
    ensures ChosenCircles(pts, c1, c2)[0].sqRadius <= ChosenCircles(pts, c1, c2)[1].sqRadius
    ensures InsideCount(pts, ChosenCircles(pts, c1, c2)[0]) >= Half(|pts|) >= |pts| / 2
    ensures InsideCount(pts, ChosenCircles(pts, c1, c2)[1]) >= Half(|pts|) >= |pts| / 2
  {
    assert IsCoverRadius(pts, c1, CoverRadius(pts, c1));
    assert IsCoverRadius(pts, c2, CoverRadius(pts, c2));
  }

  /** The smaller radius is optimal: no circle centred at any input point
      with a radius below the first circle's holds ⌈n/2⌉ points. */
  lemma SmallerRadiusOptimal(pts: seq<Point>, c1: int, c2: int, i: int, r: real)
    requires BestPair(CoverRadii(pts), c1, c2)
    requires 0 <= i < |pts|
    requires r < CoverRadius(pts, c1)
    ensures InsideCount(pts, Circle(pts[i].pos, r)) < Half(|pts|)
  {
    assert CoverRadii(pts)[c1] <= CoverRadii(pts)[i];
    assert IsCoverRadius(pts, i, CoverRadius(pts, i));
  }

  /** As a side effect the larger radius is optimal too: any two distinct
      input points need, between them, a coverage radius at least as large
      as the second circle's. */
  lemma LargerRadiusOptimal(pts: seq<Point>, c1: int, c2: int, i: int, j: int)
    requires BestPair(CoverRadii(pts), c1, c2)
    requires 0 <= i < |pts| && 0 <= j < |pts| && i != j
    ensures ChosenCircles(pts, c1, c2)[1].sqRadius <= CoverRadius(pts, i)
         || ChosenCircles(pts, c1, c2)[1].sqRadius <= CoverRadius(pts, j)
  {
    if i != c1 {
      assert CoverRadii(pts)[c2] <= CoverRadii(pts)[i];
    } else {
      assert CoverRadii(pts)[c2] <= CoverRadii(pts)[j];
    }
  }

  /** With exactly two points the pair is (0, 1) and each circle is the
      point itself with radius 0. */
  lemma TwoPointsGiveZeroCircles(pts: seq<Point>)
    requires |pts| == 2
    ensures BestPair(CoverRadii(pts), 0, 1)
    ensures ChosenCircles(pts, 0, 1) == [Circle(pts[0].pos, 0.0), Circle(pts[1].pos, 0.0)]
  {
    forall i | 0 <= i < 2
      ensures CoverRadius(pts, i) == 0.0
    {
      var sorted := SortAscending(DistancesFrom(pts[i].pos, pts));
      SortedRowStartsAtZero(pts, i, sorted);
      SortedRowIsCoverRadius(pts, i, sorted);
      CoverRadiusUnique(pts, i, sorted[0], CoverRadius(pts, i));
    }
    var key := CoverRadii(pts);
    assert key[0] == 0.0 && key[1] == 0.0;
  }
}
