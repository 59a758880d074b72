/** The covering problem solved by the task: among the input points pick two
    centres so that the circle around each holds at least half of all the
    points, and the smaller of the two radii is as small as possible.

    `Solve` follows the source step by step: the distance matrix, the
    per-row sort, the read at `CenterElem`, and the running scan that keeps
    the two smallest coverage radii. */
module Task {
  import opened Counting
  import opened Sorting
  import opened Geometry

  /** The part of the task's state that solving reads and writes. */
  datatype TaskState = TaskState(points: seq<Point>, circles: seq<Circle>, solved: bool)

  /** ⌈n/2⌉: how many points a circle must hold. */
  function Half(n: nat): nat {
    (n + 1) / 2
  }

  /** The position read in every sorted row. Reading the entries up to and
      including it takes exactly ⌈n/2⌉ of the n distances. */
  function CenterElem(n: int): (k: int)
    requires n >= 1
    ensures 0 <= k < n
    ensures k + 1 == Half(n)
  {
    n / 2 - 1 + n % 2
  }

  // ----- Reference definitions -----

  /** `r` is the coverage radius of point i: the closed disk of radius `r`
      around point i holds at least ⌈n/2⌉ of the points, and every smaller
      disk around it holds fewer. */
  ghost predicate IsCoverRadius(pts: seq<Point>, i: int, r: real)
    requires 0 <= i < |pts|
  {
    && InsideCount(pts, Circle(pts[i].pos, r)) >= Half(|pts|)
    && forall r' :: r' < r ==> InsideCount(pts, Circle(pts[i].pos, r')) < Half(|pts|)
  }

  /** A point has at most one coverage radius. */
  lemma CoverRadiusUnique(pts: seq<Point>, i: int, a: real, b: real)
    requires 0 <= i < |pts|
    requires IsCoverRadius(pts, i, a) && IsCoverRadius(pts, i, b)
    ensures a == b
  {
  }

  /** Reading any ascending permutation of point i's distance row at
      `CenterElem` gives point i's coverage radius. */
  lemma SortedRowIsCoverRadius(pts: seq<Point>, i: int, row: seq<real>)
    requires 0 <= i < |pts|
    requires Sorted(row) && multiset(row) == multiset(DistancesFrom(pts[i].pos, pts))
    ensures |row| == |pts| && IsCoverRadius(pts, i, row[CenterElem(|pts|)])
  {
    var dists := DistancesFrom(pts[i].pos, pts);
    var k := CenterElem(|pts|);
    OrderStatisticCovers(dists, row, k);
    InsideCountIsRowCount(pts, Circle(pts[i].pos, row[k]));
    forall r' | r' < row[k]
      ensures InsideCount(pts, Circle(pts[i].pos, r')) < Half(|pts|)
    {
      OrderStatisticMinimal(dists, row, k, r');
      InsideCountIsRowCount(pts, Circle(pts[i].pos, r'));
    }
  }

  /** The coverage radius of point i. */
  ghost function CoverRadius(pts: seq<Point>, i: int): (r: real)
    requires 0 <= i < |pts|
    ensures IsCoverRadius(pts, i, r)
  {
    SortedRowIsCoverRadius(pts, i, SortAscending(DistancesFrom(pts[i].pos, pts)));
    var r :| IsCoverRadius(pts, i, r);
    r
  }

  /** Every point's coverage radius, in input order. */
  ghost function CoverRadii(pts: seq<Point>): seq<real> {
    seq(|pts|, i requires 0 <= i < |pts| => CoverRadius(pts, i))
  }

  /** `c` is the lowest index below `hi`, other than `skip`, whose key is
      the smallest among the keys below `hi` other than `skip`'s. */
  predicate LowestMin(key: seq<real>, hi: int, c: int, skip: int) {
    && 0 <= c < hi <= |key|
    && c != skip
    && (forall j :: 0 <= j < hi && j != skip ==> key[c] <= key[j])
    && (forall j :: 0 <= j < c && j != skip ==> key[c] < key[j])
  }

  /** (c1, c2) is the pair the scan selects: c1 the first index of the
      smallest key, c2 the first index of the smallest key among the rest. */
  predicate BestPair(key: seq<real>, c1: int, c2: int) {
    LowestMin(key, |key|, c1, -1) && LowestMin(key, |key|, c2, c1)
  }

  /** The two circles for centres c1 and c2: each centre with its coverage
      radius, c1's circle first. */
  ghost function ChosenCircles(pts: seq<Point>, c1: int, c2: int): seq<Circle>
    requires 0 <= c1 < |pts| && 0 <= c2 < |pts|
  {
    [Circle(pts[c1].pos, CoverRadius(pts, c1)), Circle(pts[c2].pos, CoverRadius(pts, c2))]
  }

  // ----- The algorithm -----

  /** Whether the matrix fill has written entry (a, b) once the outer loop
      has reached row i and the inner loop column j: every pair off the
      diagonal whose smaller index is below i, and the pairs (i, b) with
      i < b < j together with their mirror images. */
  predicate Computed(a: int, b: int, i: int, j: int) {
    var lo := if a < b then a else b;
    var hi := if a < b then b else a;
    a != b && (lo < i || (lo == i && hi < j))
  }

  /** Step 1: the n×n matrix of pairwise distances. Only entries above the
      diagonal are computed and each is mirrored below it; the diagonal
      keeps its initial 0. */
  method DistanceMatrix(pts: seq<Point>) returns (d: seq<seq<real>>)
    ensures |d| == |pts|
    ensures forall i :: 0 <= i < |pts| ==> |d[i]| == |pts|
    ensures forall i :: 0 <= i < |pts| ==> d[i][i] == 0.0
    ensures forall i, j :: 0 <= i < |pts| && 0 <= j < |pts| ==> d[i][j] == d[j][i]
    ensures forall i :: 0 <= i < |pts| ==> d[i] == DistancesFrom(pts[i].pos, pts)
  {
    var n := |pts|;
    d := seq(n, _ => seq(n, _ => 0.0));
    var i := 0;
    while i < n
      invariant 0 <= i <= n
      invariant |d| == n
      invariant forall a :: 0 <= a < n ==> |d[a]| == n
      invariant forall a, b {:trigger d[a][b]} :: 0 <= a < n && 0 <= b < n ==>
        d[a][b] == (if Computed(a, b, i, i + 1) then SqDist(pts[a].pos, pts[b].pos) else 0.0)
    {
      var j := i + 1;
      while j < n
        invariant i + 1 <= j <= n
        invariant |d| == n
        invariant forall a :: 0 <= a < n ==> |d[a]| == n
        invariant forall a, b {:trigger d[a][b]} :: 0 <= a < n && 0 <= b < n ==>
          d[a][b] == (if Computed(a, b, i, j) then SqDist(pts[a].pos, pts[b].pos) else 0.0)
      {
        SqDistSymmetric(pts[i].pos, pts[j].pos);
        d := d[i := d[i][j := SqDist(pts[i].pos, pts[j].pos)]];
        d := d[j := d[j][i := d[i][j]]];
        j := j + 1;
      }
      assert forall a, b :: 0 <= a < n && 0 <= b < n ==>
        Computed(a, b, i, n) == Computed(a, b, i + 1, i + 2);
      i := i + 1;
    }
    forall a | 0 <= a < n
      ensures d[a] == DistancesFrom(pts[a].pos, pts)
    {
      assert forall b :: 0 <= b < n ==> d[a][b] == DistancesFrom(pts[a].pos, pts)[b];
    }
  }

  /** Step 2: every row sorted ascending. */
  method SortRows(d: seq<seq<real>>) returns (s: seq<seq<real>>)
    ensures |s| == |d|
    ensures forall i :: 0 <= i < |d| ==> Sorted(s[i]) && multiset(s[i]) == multiset(d[i])
  {
    s := d;
    var i := 0;
    while i < |d|
      invariant 0 <= i <= |d|
      invariant |s| == |d|
      invariant forall a :: 0 <= a < i ==> Sorted(s[a]) && multiset(s[a]) == multiset(d[a])
      invariant forall a :: i <= a < |d| ==> s[a] == d[a]
    {
      s := s[i := SortAscending(s[i])];
      i := i + 1;
    }
  }

  /** Steps 3 and 4: the scan over the keys that keeps the two smallest.
      It starts from indices 0 and 1 and compares strictly, so on equal
      keys the earlier index is kept. */
  method SelectTwo(key: seq<real>) returns (c1: int, c2: int)
    requires |key| >= 2
    ensures 0 <= c1 < |key| && 0 <= c2 < |key| && c1 != c2
    ensures key[c1] <= key[c2]
    ensures forall i :: 0 <= i < |key| ==> key[c1] <= key[i]
    ensures forall i :: 0 <= i < |key| && i != c1 ==> key[c2] <= key[i]
    ensures BestPair(key, c1, c2)
  {
    c1, c2 := 0, 1;
    if key[c1] > key[c2] {
      c1, c2 := c2, c1;
    }
    var i := 2;
    while i < |key|
      invariant 2 <= i <= |key|
      invariant LowestMin(key, i, c1, -1)
      invariant LowestMin(key, i, c2, c1)
    {
      if key[c1] > key[i] {
        c2 := c1;
        c1 := i;
      } else if key[c2] > key[i] {
        c2 := i;
      }
      i := i + 1;
    }
  }

  /** Whatever sorted permutation of the distance rows the sort produces,
      reading each at `CenterElem` yields the coverage radii. */
  lemma SortedRowsGiveCoverRadii(pts: seq<Point>, d: seq<seq<real>>, s: seq<seq<real>>)
    requires |pts| >= 1 && |d| == |pts| && |s| == |pts|
    requires forall i :: 0 <= i < |pts| ==> d[i] == DistancesFrom(pts[i].pos, pts)
    requires forall i :: 0 <= i < |pts| ==> Sorted(s[i]) && multiset(s[i]) == multiset(d[i])
    ensures forall i :: 0 <= i < |pts| ==>
      |s[i]| == |pts| && s[i][CenterElem(|pts|)] == CoverRadius(pts, i)
  {
    forall i | 0 <= i < |pts|
      ensures |s[i]| == |pts| && s[i][CenterElem(|pts|)] == CoverRadius(pts, i)
    {
      SortedRowIsCoverRadius(pts, i, s[i]);
      CoverRadiusUnique(pts, i, s[i][CenterElem(|pts|)], CoverRadius(pts, i));
    }
  }

  /** The whole of solving: previous circles are discarded, the two chosen
      circles are stored in order, the task is marked solved and its points
      are left as they were. The source indexes rows 0 and 1, so it needs at
      least two points. The chosen indices, local to the source, are
      returned so that properties of the result can name them. */
  method Solve(task: TaskState) returns (t: TaskState, c1: int, c2: int)
    requires |task.points| >= 2
    ensures t.points == task.points
    ensures t.solved
    ensures BestPair(CoverRadii(task.points), c1, c2)
    ensures t.circles == ChosenCircles(task.points, c1, c2)
  {
    var pts := task.points;
    var n := |pts|;
    var d := DistanceMatrix(pts);
    var s := SortRows(d);
    var centerElem := CenterElem(n);
    SortedRowsGiveCoverRadii(pts, d, s);
    var key := seq(n, i requires 0 <= i < n => s[i][centerElem]);
    assert key == CoverRadii(pts);
    c1, c2 := SelectTwo(key);
    t := TaskState(pts, [Circle(pts[c1].pos, key[c1]), Circle(pts[c2].pos, key[c2])], true);
  }
}
