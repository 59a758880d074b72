# Two half-covering circles — a Dafny model of `Task.solve`

The application lets a user place points in the plane and then solves this
problem: find two circles whose centres are input points, such that each
circle holds at least half of all the points, and the smaller of the two
radii is as small as possible.

`Task.solve` does it in four steps, and the model follows them one by one:

1. **Distance matrix** (`Task.DistanceMatrix`). The n×n matrix of pairwise
   distances. Only entries above the diagonal are computed and each is
   mirrored below; the diagonal keeps the 0 it was created with.
2. **Row sort** (`Task.SortRows`). Every row sorted ascending. The platform
   sort is represented by `Sorting.SortAscending`, an insertion sort whose
   contract is only "a sorted permutation"; `Counting.SortedUnique` shows
   that any sort meeting that contract yields the same row.
3. **Coverage radius** (`Task.CenterElem`). Each sorted row is read at
   `n/2 - 1 + n%2`, which is ⌈n/2⌉ − 1. The model defines the coverage
   radius of a point by what it means, independently of any sort
   (`Task.IsCoverRadius`): the closed disk of that radius around the point
   holds at least ⌈n/2⌉ points, the point itself included, and every
   smaller disk holds fewer. `Task.SortedRowIsCoverRadius` proves that
   reading any ascending permutation of the row at that position gives
   exactly this radius.
4. **Two smallest** (`Task.SelectTwo`). One left-to-right scan keeps the two
   smallest coverage radii with strict comparisons, so on ties the earlier
   index wins. The source reads the keys straight out of the sorted matrix;
   the model first collects them into one sequence and scans that.

`Task.Solve` composes the steps over a `TaskState` (the points, the circles
list and the solved flag). It replaces any earlier circles with exactly two,
`(points[c1], key[c1])` then `(points[c2], key[c2])`, marks the task solved
and leaves the points alone. The indices `c1` and `c2` are locals in the
source; `Solve` also returns them so that the properties can name the pair. `TaskProperties` proves what the result
guarantees: coverage, optimality of the smaller radius, determinism, and the
two-point boundary case.

Data: `Geometry.Point` is a position (`Vec2`) and `Geometry.Circle` a position
plus a radius, as in `Point.java` and `Circle.java`. Coordinates are exact
reals. Distances are compared through the squared Euclidean distance. The
square root is monotone on non-negative reals, so every comparison, every
sorted order and every count of points inside a circle is the same as with
the true distance. For the same reason a circle carries its squared radius.

`solve` has no input checks. It clears the circles and then reads rows 0
and 1 of the sorted matrix at `Task.java:251`. With one point, `distance[1]`
does not exist. With no points, `distance[0]` does not exist. Either way the
method throws an `ArrayIndexOutOfBoundsException` after the circles have been
cleared. So `Task.Solve` requires at least two points. Coordinates are exact
reals, which are always finite.

Files: `counting.dfy` (counts within a radius, sorted rows),
`sorting.dfy` (the sort), `geometry.dfy` (points, circles, metric),
`task.dfy` (the algorithm), `properties.dfy` (guarantees of the result).

## Model

| member | source | states |
|---|---|---|
| Task.CenterElem | project/src/main/java/app/Task.java:250 | for n ≥ 1 the read position lies in 0..n-1 and the entries up to it are exactly ⌈n/2⌉ |
| Task.DistanceMatrix | project/src/main/java/app/Task.java:238-245 | the matrix is n×n and symmetric, with 0 on the diagonal, and row i is the distance from point i to every point in input order |
| Task.SortRows | project/src/main/java/app/Task.java:246-248 | every row comes out ascending and holds the same multiset of distances it went in with |
| Counting.OrderStatisticCovers | project/src/main/java/app/Task.java:246-250 | for any ascending permutation of a row, at least k+1 entries of the original row are within the entry at position k |
| Counting.OrderStatisticMinimal | project/src/main/java/app/Task.java:246-250 | for any ascending permutation of a row, a radius strictly below the entry at position k is within reach of at most k entries of the original row |
| Task.SortedRowIsCoverRadius | project/src/main/java/app/Task.java:246-250 | the entry at the centre position of any ascending permutation of point i's distance row is point i's coverage radius: it covers ⌈n/2⌉ points and no smaller radius does |
| Task.CoverRadiusUnique | project/src/main/java/app/Task.java:250 | a point has only one coverage radius, so the value read does not depend on which sort produced the row |
| Task.SortedRowsGiveCoverRadii | project/src/main/java/app/Task.java:246-250 | whichever sorted permutation the sort returns for each row, the value read in row i is point i's coverage radius |
| Task.SelectTwo | project/src/main/java/app/Task.java:249-265 | c1 ≠ c2 are valid indices; key[c1] is the global minimum and key[c2] the minimum over all other indices; c1 is the lowest index holding the minimum and c2 the lowest other index holding its value (strict comparisons keep the earlier index) |
| Task.Solve | project/src/main/java/app/Task.java:235-270 | points unchanged and solved set; the circles are replaced by exactly two, each chosen centre with its coverage radius, c1 first, where (c1, c2) is the pair the scan must select from the coverage radii |
| Sorting.Insert | project/src/main/java/app/Task.java:247 | inserting into a sorted row keeps it sorted and adds exactly that one value to its multiset |
| Sorting.SortAscending | project/src/main/java/app/Task.java:247 | the result is ascending and a permutation of the input row |
| Counting.CountPermutation | project/src/main/java/app/Task.java:247 | sorting a row does not change how many of its entries lie within any radius |
| Counting.SortedUnique | project/src/main/java/app/Task.java:247 | two ascending rows with the same multiset of entries are equal, so the sorted row does not depend on the sort used |
| Counting.SortedCountAtLeast | project/src/main/java/app/Task.java:250 | in an ascending row, at least k+1 entries are within the entry at position k |
| Counting.SortedCountBelow | project/src/main/java/app/Task.java:250 | in an ascending row, a radius strictly below the entry at position k holds at most k entries |
| Geometry.SqDist | project/src/main/java/app/Task.java:242 | a distance is never negative and is 0 between a position and itself |
| Geometry.SqDistSymmetric | project/src/main/java/app/Task.java:242-243 | the distance from a to b equals the distance from b to a, which makes mirroring the matrix entry sound |
| Geometry.Inside | project/src/test/java/UnitTest.java:24-26 | the closed-disk test, on squared distance against squared radius: a circle of non-negative radius holds its own centre, and one of negative radius holds no point |
| Geometry.InsideCount | project/src/test/java/UnitTest.java:36-41 | counting the points inside a circle one by one never gives more than the number of points |
| Geometry.InsideCountIsRowCount | project/src/test/java/UnitTest.java:36-41 | counting points inside a circle one by one, as the test does, equals counting the centre's distance-row entries within the radius |
| TaskProperties.CoverRadiusIsADistance | project/src/main/java/app/Task.java:247-250 | the coverage radius is the distance from point i to some input point |
| TaskProperties.SortedRowStartsAtZero | project/src/main/java/app/Task.java:239-247 | every ascending permutation of a distance row starts with 0, the point's distance to itself |
| TaskProperties.LowestMinUnique | project/src/main/java/app/Task.java:251-265 | at most one index is the lowest holder of the minimum, so the scan's choice is forced |
| TaskProperties.SolutionCovers | project/src/test/java/UnitTest.java:36-43 | for the selected pair, both circles hold at least ⌈n/2⌉ points, hence the n/2 the test asserts; the centres are distinct input points; the first radius is at most the second |
| TaskProperties.SmallerRadiusOptimal | project/src/main/java/app/Task.java:25-31 | no circle centred at any input point with a radius below the first circle's holds ⌈n/2⌉ points, so the smaller radius is minimal |
| TaskProperties.LargerRadiusOptimal | project/src/main/java/app/Task.java:256-265 | for any two distinct input points, one of their coverage radii is at least the second circle's radius |
| TaskProperties.SolutionDeterministic | project/src/main/java/app/Task.java:249-267 | two pairs that both meet the selection rule are the same pair, so solving the same points twice gives the same circles |
| TaskProperties.TwoPointsGiveZeroCircles | project/src/main/java/app/Task.java:249-255 | with two points the selected pair is (0, 1) and each circle is the point itself with radius 0 |

## Left out

- Drawing: `paint`, `renderGrid`, `renderTask`, `paintMouse` and `Circle.paint`. These are canvas work and floating-point trigonometry, not part of the covering logic.
- The screen/world coordinate mapping (`click`, `scale`, `getRealPos`). It calls a coordinate-system library that is not part of this model.
- Logging in `addPoint`, colours, `toString`, `hashCode` and the formatting in `getAnswer`. They produce text and colours only.
- The `cancel`, `clear` and `isSolved` state toggles. They only set flags or empty lists.
- Floating point: rounding of the square root, NaN and −0.0 ordering in the array sort, and overflow. Coordinates are exact reals.
- The internals of the platform's sort. Only its postcondition, a sorted permutation, is modelled.
- Fewer than two points: `solve` clears the circles and then throws an `ArrayIndexOutOfBoundsException` at `Task.java:251`. The model does not represent that exception; `Task.Solve` requires at least two points instead.
- Geometry.SqDist: the distance is the squared Euclidean distance, not its square root, so `Circle.sqRadius` is the square of the radius the source stores. It does not state that the distance is 0 only between equal positions; nothing in the algorithm relies on that.
