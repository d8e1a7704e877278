# rstab: circle intersections of lines, segments and soil layers

This project models the geometric core of the `librstab` slope-stability library: the
intersection of a trial slip circle (centre `(mx, my)`, radius `r`) with

- a line or segment given by two points (`Line::circle_intersections`), and
- the boundary polyline of a soil layer (`Layer::circle_intersections`).

The model follows the source step by step:

- the line through p1 and p2 becomes the implicit equation `ca*x + cb*y + cc = 0`;
- the equation is substituted into the circle equation, which gives a quadratic `a*t*t + b*t + c = 0`;
  - `t` is x when `|cb| >= EPS` (`EPS = 1e-14`) and y otherwise;
- a negative discriminant gives nothing;
- a discriminant exactly zero gives one candidate, a positive one gives two: `(-b + sqrt d)/2a`, then `(-b - sqrt d)/2a`;
- `fx` or `fy` recovers the other coordinate;
- `rxy` pushes each candidate, in segment mode only when `within` holds;
  - `within` is the distance test `|d1 - d2 - d3| < EPS`; over exact reals it accepts every point of the closed segment and rejects a point of the line's extension once twice its distance beyond the nearer end point is at least EPS;
- the result is sorted by x.

The layer walks its points and appends, edge by edge, the segment-mode intersections of each
pair of consecutive points.

The modules are:

- `Arith`: a few product facts over reals.
- `Shapes`: points, lines, layers, the tolerance and the square root.
- `PointLists`: the sort by x, the filter and the concatenation of per-edge results.
- `LineCircle`: `Line::circle_intersections` and its helpers.
- `LayerCircle`: `Layer::circle_intersections`.
- `Examples`: the library's own unit-test cases, evaluated in the model.

Arithmetic is over exact reals. The floating-point square root is the parameter `sqrt`. Every
property that depends on it requires `IsSquareRoot(sqrt)`: for every `v >= 0`, `sqrt(v) >= 0`
and `sqrt(v)*sqrt(v) == v`.

The two `circle_intersections` functions are methods that build their result step by step:

- `Rxy` appends to the vector;
- `PushRoots` is the pushing phase;
- `LayerCircle.PushAll` is the inner `for` loop of the layer.

Each method is proved equal to a specification function:

- `LineCircle.Intersections`;
- `LayerCircle.LayerIntersections`.

The properties are proved as lemmas about those functions.

## Model

| member | source | states |
|---|---|---|
| LineCircle.ImplicitOf | librstab/src/lib.rs:50-52 | Definition: ca = y2 - y1, cb = x1 - x2, cc = x2*y1 - x1*y2. Both end points satisfy it (`ImplicitThroughEndpoints`), and it is the line every result lies on (`IntersectionsOnLineAndCircle`). |
| LineCircle.Leading | librstab/src/lib.rs:54 | Definition: a = ca^2 + cb^2. It is positive on any line that is not a single point (`LeadingPositive`). |
| LineCircle.XLinear | librstab/src/lib.rs:60 | Definition: b = 2(ca*cc + ca*cb*my - cb^2*mx) of the x branch. `EliminationX` proves it is the linear coefficient of cb^2 times the circle residual on the line. |
| LineCircle.XConstant | librstab/src/lib.rs:61-62 | Definition: c = cc^2 + 2*cb*cc*my - cb^2*(r^2 - mx^2 - my^2) of the x branch. `EliminationX` proves it is the constant term of the same product. |
| LineCircle.YLinear | librstab/src/lib.rs:64 | Definition: b = 2(cb*cc + ca*cb*mx - ca^2*my) of the y branch. `EliminationY` proves it is the linear coefficient of ca^2 times the circle residual on the line. |
| LineCircle.YConstant | librstab/src/lib.rs:65-66 | Definition: c = cc^2 + 2*ca*cc*mx - ca^2*(r^2 - mx^2 - my^2) of the y branch. `EliminationY` proves it is the constant term of the same product. |
| LineCircle.QuadraticOf | librstab/src/lib.rs:54-68 | Definition: the quadratic in x when \|cb\| >= EPS and in y otherwise. Its zeros are exactly the solved coordinates of the points on the line and the circle: `RootOnLineAndCircle` in one direction, `MeetingPointIsRoot` in the other. |
| LineCircle.Discriminant | librstab/src/lib.rs:69 | Definition: d = b^2 - 4ac. It is the square of 2at + b at every zero (`DiscriminantAtZero`), so it is never negative when there is one (`ZeroDiscriminantNonNegative`). |
| LineCircle.LineDiscriminant | librstab/src/lib.rs:50-69 | Definition: the discriminant of the line's quadratic. When it is negative the line misses the circle (`NegativeDiscriminantMisses`). |
| LineCircle.Root | librstab/src/lib.rs:107-131 | Definition: the point whose solved coordinate is t, with the other coordinate from fx or fy. `RootCoordinate` and `RootOnLineAndCircle` state what it is. |
| LineCircle.Roots | librstab/src/lib.rs:69-133 | Definition: no candidate for d < 0, the tangent root for d == 0, the + root then the - root for d > 0. Its properties are proved in `RootsTangent`, `RootsSecant`, `CandidateCount`, `RootsSolveQuadratic` and `ZeroAmongRoots`. |
| LineCircle.Candidates | librstab/src/lib.rs:50-133 | Definition: `Roots` of the line's quadratic. Over exact reals a point is a candidate exactly when it is on the line and the circle (`CandidatesOnLineAndCircle`, `CandidatesComplete`). |
| LineCircle.Intersections | librstab/src/lib.rs:40-137 | Definition: the candidates, filtered by `within` in segment mode, sorted by x. `CircleIntersections` is proved equal to it; its properties are proved in `IntersectionsSorted`, `SegmentIsFilter`, `IntersectionsOnLineAndCircle`, `IntersectionsComplete` and `ReversedLineSameIntersections`. |
| LineCircle.Within | librstab/src/lib.rs:74-80 | Definition: \|d1 - d2 - d3\| < EPS for the three distances between the end points and the point. It accepts every point of the closed segment (`InterpolatedWithin`), rejects points far enough out on the extension (`InterpolatedOutside`), and ignores the order of the end points (`WithinSymmetric`). |
| LineCircle.CircleIntersections | librstab/src/lib.rs:40-137 | Equals `Intersections`. The result is sorted by non-decreasing x. It is empty when the discriminant is negative. In line mode it has exactly 0, 1 or 2 points as d < 0, d == 0 or d > 0. In segment mode it is exactly the line-mode result with the points failing `within` removed. With a true square root, a point is returned exactly when it is on the line and on the circle (and, in segment mode, passes `within`): nothing else is returned and nothing is missed. |
| LineCircle.PushRoots | librstab/src/lib.rs:106-133 | For d == 0 the pushes yield the single point at t = -b/2a. For d > 0 they yield the roots at (-b + sqrt d)/2a and then (-b - sqrt d)/2a. Each root's other coordinate comes from fx or fy. In segment mode only the points passing `within` are kept, in push order. |
| LineCircle.Rxy | librstab/src/lib.rs:90-104 | Appends (x, y) exactly when segment mode is off or `within` holds. Otherwise the vector is unchanged. |
| LineCircle.Fx | librstab/src/lib.rs:82-84 | For cb != 0 the point (x, fx(x)) satisfies ca*x + cb*y + cc == 0. |
| LineCircle.Fy | librstab/src/lib.rs:86-88 | For ca != 0 the point (fy(y), y) satisfies ca*x + cb*y + cc == 0. |
| LineCircle.FxOnLine | librstab/src/lib.rs:82-84 | Proof step (restates `Fx`'s ensures): (x, fx(x)) lies on the implicit line. |
| LineCircle.FyOnLine | librstab/src/lib.rs:86-88 | Proof step (restates `Fy`'s ensures): (fy(y), y) lies on the implicit line. |
| LineCircle.QuadraticSolvable | librstab/src/lib.rs:54-68 | On a line whose branch can divide, a = ca^2 + cb^2 is positive. The quadratic is in x exactly when \|cb\| >= EPS. The division in that branch (by cb, or by ca) is defined. |
| LineCircle.LeadingPositive | librstab/src/lib.rs:54 | a = ca^2 + cb^2 > 0 unless ca and cb are both zero. |
| LineCircle.RootsTangent | librstab/src/lib.rs:106-115 | Proof step (unfolds `Roots`): A zero discriminant gives exactly one candidate, at -b/2a. |
| LineCircle.RootsSecant | librstab/src/lib.rs:116-133 | Proof step (unfolds `Roots`): A positive discriminant gives exactly two candidates: + sqrt d first, then - sqrt d. |
| LineCircle.CandidateCount | librstab/src/lib.rs:69-133 | Before any containment test there are 0, 1 or 2 candidates as d < 0, d == 0 or d > 0. |
| LineCircle.IntersectionsSorted | librstab/src/lib.rs:135 | In both modes the result is sorted by x. It has at most two points, all of them candidates. Line mode keeps all candidates. |
| LineCircle.SegmentIsFilter | librstab/src/lib.rs:90-135 | The segment-mode result is the line-mode result filtered by `within`. The order is kept and nothing is added. |
| LineCircle.QuadraticRoot | librstab/src/lib.rs:117-131 | For a != 0 and s*s = b*b - 4ac, both (-b + s)/2a and (-b - s)/2a solve a*t*t + b*t + c = 0. |
| LineCircle.EvalRoot | librstab/src/lib.rs:117-131 | Proof step (restates `QuadraticRoot`): The same fact for the quadratic of the model. |
| LineCircle.RootCoordinate | librstab/src/lib.rs:107-131 | A recovered point has the root as its solved coordinate: x in the x branch, y in the y branch. |
| LineCircle.RootsSolveQuadratic | librstab/src/lib.rs:106-133 | With a true square root, every candidate's solved coordinate is a zero of the quadratic. |
| LineCircle.Elimination | librstab/src/lib.rs:59-62 | For a point of the line, cb^2 times the circle residual equals the x-quadratic with the source's b and c at x. |
| LineCircle.EvalX | librstab/src/lib.rs:59-62 | Proof step (unfolds `QuadraticOf`): The \|cb\| >= EPS quadratic has the source's coefficients a, b and c in x. |
| LineCircle.EvalY | librstab/src/lib.rs:63-67 | Proof step (unfolds `QuadraticOf`): The \|cb\| < EPS quadratic has the source's coefficients a, b and c in y. |
| LineCircle.EliminationX | librstab/src/lib.rs:59-62 | On the line, cb^2 times the residual is the x-quadratic. |
| LineCircle.EliminationY | librstab/src/lib.rs:63-67 | On the line, ca^2 times the residual is the y-quadratic. |
| LineCircle.RootOnCircleX | librstab/src/lib.rs:59-84 | A zero x of the x-quadratic gives, through fx, a point on the line and on the circle. |
| LineCircle.RootOnCircleY | librstab/src/lib.rs:63-88 | A zero y of the y-quadratic gives, through fy, a point on the line and on the circle. |
| LineCircle.RootOnLineAndCircle | librstab/src/lib.rs:59-88 | In whichever branch the tolerance selects, a zero of the quadratic recovers a point on the line and on the circle. |
| LineCircle.CandidatesSolveQuadratic | librstab/src/lib.rs:59-131 | Branch selection when \|cb\| >= EPS: each candidate's x is a root and y = fx(x). Otherwise each candidate's y is a root and x = fy(y). |
| LineCircle.CandidatesOnLineAndCircle | librstab/src/lib.rs:50-133 | Over exact reals every candidate satisfies ca*x + cb*y + cc = 0 and (x-mx)^2 + (y-my)^2 = r^2. |
| LineCircle.IntersectionsOnLineAndCircle | librstab/src/lib.rs:50-137 | In either mode every returned point is on the line and on the circle. |
| LineCircle.DiscriminantAtZero | librstab/src/lib.rs:69 | At a zero t of a*t*t + b*t + c with a != 0, the discriminant b*b - 4ac is (2at + b)^2. |
| LineCircle.SolveLinear | librstab/src/lib.rs:108-131 | Proof step: u = 2at + b gives t = (-b + u)/2a. |
| LineCircle.OnLineIsFx | librstab/src/lib.rs:82-84 | Converse of `Fx`: every point of a line with cb != 0 has y = fx(x). |
| LineCircle.OnLineIsFy | librstab/src/lib.rs:86-88 | Converse of `Fy`: every point of a line with ca != 0 has x = fy(y). |
| LineCircle.MeetingPointSolvesX | librstab/src/lib.rs:59-62 | When \|cb\| >= EPS, the x of a point on the line and the circle is a zero of the x-quadratic. |
| LineCircle.MeetingPointSolvesY | librstab/src/lib.rs:63-67 | When \|cb\| < EPS, the y of a point on the line and the circle is a zero of the y-quadratic. |
| LineCircle.MeetingPointIsRoot | librstab/src/lib.rs:59-131 | A point on the line and the circle is the point fx or fy recovers from a zero of the quadratic of the selected branch. |
| LineCircle.ZeroDiscriminantNonNegative | librstab/src/lib.rs:69-72 | A quadratic with a zero has a non-negative discriminant. |
| LineCircle.ZeroAmongRoots | librstab/src/lib.rs:106-133 | With a true square root, the point of every zero of the quadratic is among the points the source pushes. |
| LineCircle.ZeroAtTangent | librstab/src/lib.rs:106-115 | With d == 0, every zero is the tangent root -b/2a. |
| LineCircle.ZeroAtSecant | librstab/src/lib.rs:116-133 | With d > 0, every zero is (-b + sqrt d)/2a or (-b - sqrt d)/2a. |
| LineCircle.CandidatesComplete | librstab/src/lib.rs:50-133 | Over exact reals every point on the line and on the circle is a candidate. |
| LineCircle.IntersectionsComplete | librstab/src/lib.rs:40-137 | Converse of `IntersectionsOnLineAndCircle`: every point on the line and the circle is returned in line mode, and in segment mode when it passes `within`. |
| LineCircle.IntersectionsCompleteAll | librstab/src/lib.rs:40-137 | The same for all points at once, in either mode. |
| LineCircle.NegativeDiscriminantMisses | librstab/src/lib.rs:69-72 | When the discriminant is negative (and the source returns nothing) the line really misses the circle: no point is on both. |
| LineCircle.WithinSymmetric | librstab/src/lib.rs:74-80 | `within` does not depend on which end point is first. |
| LineCircle.ScaledSegment | librstab/src/lib.rs:74-80 | Proof step: when one difference vector is k times another, its length is \|k\| times the other's. |
| LineCircle.DistanceFromStart | librstab/src/lib.rs:74-77 | The point p1 + t(p2 - p1) is \|t\| times the segment's length from p1 (d2 of `within`). |
| LineCircle.DistanceToEnd | librstab/src/lib.rs:74-78 | The point p1 + t(p2 - p1) is \|1 - t\| times the segment's length from p2 (d3 of `within`). |
| LineCircle.DistancesAddUp | librstab/src/lib.rs:79-80 | Proof step: for 0 <= t <= 1 the distances t and 1 - t times the length add up to the length, so delta is 0. |
| LineCircle.DistancesOvershoot | librstab/src/lib.rs:79-80 | For t < 0 or t > 1, \|delta\| is twice the distance beyond the nearer end point. |
| LineCircle.OvershootRejected | librstab/src/lib.rs:74-80 | Proof step: distances that overshoot the length by at least EPS fail `within`. |
| LineCircle.InterpolatedOnLine | librstab/src/lib.rs:50-52 | Every point p1 + t(p2 - p1) satisfies the implicit equation of the line through p1 and p2. |
| LineCircle.InterpolatedWithin | librstab/src/lib.rs:74-80 | With a true square root, every point p1 + t(p2 - p1) with 0 <= t <= 1 passes `within`. |
| LineCircle.InterpolatedOutside | librstab/src/lib.rs:74-80 | With a true square root, a point p1 + t(p2 - p1) with t < 0 or t > 1 fails `within` once twice its distance beyond the nearer end point is at least EPS. |
| LineCircle.SegmentPointsOnSegment | librstab/src/lib.rs:50-80 | Every point of the closed segment is on the line and passes `within`. |
| LineCircle.SegmentIntersectionsComplete | librstab/src/lib.rs:40-137 | Segment mode returns every point of the closed segment that is on the circle. |
| LineCircle.SegmentResultsWithin | librstab/src/lib.rs:100-103 | Segment mode returns only points that pass `within`. |
| LineCircle.ExtensionPointsRejected | librstab/src/lib.rs:40-137 | Segment mode never returns a point on the extension whose distance beyond the nearer end point, doubled, is at least EPS. |
| LineCircle.QuadraticOfNegated | librstab/src/lib.rs:54-68 | Negating ca, cb and cc leaves a, b, c and the branch unchanged. |
| LineCircle.RootNegated | librstab/src/lib.rs:82-88 | Negating ca, cb and cc leaves fx and fy unchanged. |
| LineCircle.RootsNegated | librstab/src/lib.rs:106-133 | Negating ca, cb and cc leaves the candidates unchanged. |
| LineCircle.ReversedLineSameIntersections | librstab/src/lib.rs:40-137 | Swapping p1 and p2 leaves the result unchanged in both modes. |
| LineCircle.ImplicitThroughEndpoints | librstab/src/lib.rs:50-52 | Both end points satisfy the implicit equation. It degenerates (ca = cb = 0) exactly when p1 == p2. |
| Shapes.Abs | librstab/src/lib.rs:59 | \|v\| is non-negative and is v or -v. |
| PointLists.Filter | librstab/src/lib.rs:100-103 | The kept points are exactly the input points that pass the test. There are no more of them than input points. |
| PointLists.InsertByX | librstab/src/lib.rs:135 | Insertion adds exactly one occurrence of the point (as a multiset). |
| PointLists.SortByX | librstab/src/lib.rs:135 | The sort is a permutation of its input (as a multiset). |
| PointLists.InsertByXSorted | librstab/src/lib.rs:135 | Inserting into an x-sorted sequence keeps it x-sorted. |
| PointLists.SortByXSorted | librstab/src/lib.rs:135 | The sort yields non-decreasing x, the same length and the same points. |
| PointLists.FilterInsertFront | librstab/src/lib.rs:135 | A point not right of a sorted sequence's first point is inserted in front of any filtering of it. |
| PointLists.FilterInsert | librstab/src/lib.rs:135 | Filtering after inserting equals inserting (when kept) after filtering. |
| PointLists.FilterInsertKeptHead | librstab/src/lib.rs:135 | Proof step of `FilterInsert` past a kept first element. |
| PointLists.FilterSort | librstab/src/lib.rs:135 | Filtering commutes with the sort. |
| PointLists.FilterShort | librstab/src/lib.rs:100-103 | Filtering one or two points keeps each exactly when it passes, in order. |
| PointLists.SortTwo | librstab/src/lib.rs:135 | Two points are swapped exactly when the second has the strictly smaller x. |
| PointLists.ConcatPrefixStep | librstab/src/lib.rs:155-157 | Adding one more edge's list to the concatenation appends that list. |
| PointLists.ConcatMembers | librstab/src/lib.rs:144-158 | A point is in the concatenation exactly when it is in one of the lists. |
| PointLists.ConcatLength | librstab/src/lib.rs:144-158 | Lists of at most two points concatenate to at most 2 points per list. |
| PointLists.ConcatAppend | librstab/src/lib.rs:144-158 | The concatenation of appended lists of lists is the appended concatenations. |
| LayerCircle.Edge | librstab/src/lib.rs:145-154 | Definition: the Line from point i-1 to point i. `EdgeResults` and `EdgeResultsSlice` state how the edges follow the points. |
| LayerCircle.SegmentMode | librstab/src/lib.rs:155 | Definition: the segment-mode `Intersections` of a well-posed edge, and nothing for any other edge. `LayerMembers`, `LayerPointsOnCircle` and `LayerPointsComplete` state what it yields per edge. |
| LayerCircle.LayerIntersections | librstab/src/lib.rs:141-161 | Definition: the segment-mode results of the edges, concatenated in edge order. `CircleIntersections` is proved equal to it; its properties are proved in `LayerLength`, `LayerMembers`, `LayerPointsOnCircle`, `LayerPointsComplete`, `LayerSegmentPointsComplete` and `LayerSplit`. |
| LayerCircle.EdgeResults | librstab/src/lib.rs:144-154 | One result list per edge (n-1 of them for n points). List j is the result for the edge from point j to point j+1. |
| LayerCircle.CircleIntersections | librstab/src/lib.rs:141-161 | The loop over i in 1..n returns `LayerIntersections`: the segment-mode results of the edges (i-1, i), concatenated in edge order. |
| LayerCircle.PushAll | librstab/src/lib.rs:155-157 | Pushing each found point in turn appends the whole list. |
| LayerCircle.EdgeMembers | librstab/src/lib.rs:144-158 | A point is in the concatenation over the edges exactly when some edge yields it. |
| LayerCircle.EdgeResultsSlice | librstab/src/lib.rs:144-154 | The edges of points k..n-1 are the edges k+1..n-1 of the whole polyline. |
| LayerCircle.EdgesSplit | librstab/src/lib.rs:144-158 | Splitting the polyline at a point splits the concatenation at the matching edge. |
| LayerCircle.ShortLayerEmpty | librstab/src/lib.rs:144 | A layer with fewer than two points yields nothing. |
| LayerCircle.LayerLength | librstab/src/lib.rs:141-161 | Any layer of n points, well posed or not, yields at most 2(n-1) points. |
| LayerCircle.LayerMembers | librstab/src/lib.rs:141-161 | A point is returned exactly when the segment-mode intersection of some edge (i-1, i) yields it. |
| LayerCircle.LayerPointsOnCircle | librstab/src/lib.rs:141-161 | With a true square root every returned point is on the circle, on the line of some edge and within that edge. |
| LayerCircle.LayerPointsComplete | librstab/src/lib.rs:141-161 | Converse of `LayerPointsOnCircle`: a point on the circle, on the line of some edge and within that edge is returned. |
| LayerCircle.LayerSegmentPointsComplete | librstab/src/lib.rs:141-161 | Every point of the closed segment of some edge that is on the circle is returned. |
| LayerCircle.SliceWellPosed | librstab/src/lib.rs:144-154 | A contiguous part of a well-posed polyline is well posed. |
| LayerCircle.LayerSplit | librstab/src/lib.rs:141-161 | The result for a polyline is the result for its points up to k followed by the result for its points from k on. |
| Examples.SecantLine | librstab/src/lib.rs:244-249 | The line (-10, 11)-(10, -9) meets the circle (3, -5, 3) at (3, -2) and (6, -5), in that order. |
| Examples.MissingSegment | librstab/src/lib.rs:251-255 | The segment (-10, 11)-(-11, -12) has discriminant -377820 against the circle (3, -5, 3) and yields nothing. |
| Examples.TangentQuadratic | librstab/src/lib.rs:257-263 | The horizontal line (3, -2)-(7, -2) gives the quadratic 16x^2 - 96x + 144 in x, with discriminant 0. |
| Examples.TangentCandidates | librstab/src/lib.rs:257-263 | Its only candidate is (3, -2). |
| Examples.TangentSegment | librstab/src/lib.rs:257-263 | In segment mode the tangent point (3, -2), an end point, passes `within` and is the result. |
| Examples.VerticalQuadratic | librstab/src/lib.rs:265-271 | The vertical line x = 0 takes the y branch with the quadratic 81y^2 - 1296. |
| Examples.VerticalCandidates | librstab/src/lib.rs:265-271 | Its candidates are (0, 4), then (0, -4). |
| Examples.VerticalLine | librstab/src/lib.rs:265-271 | In line mode the result is the two points, both with x = 0. |
| Examples.VerticalSegment | librstab/src/lib.rs:273-274 | In segment mode only (0, 4) is within (0, -3)-(0, 6). |
| Examples.DiagonalQuadratic | librstab/src/lib.rs:276-292 | The lines (6, 3)-(10, 7) and (7, 4)-(11, 8) share the implicit form and the quadratic 32x^2 - 288x + 256. |
| Examples.DiagonalCandidates | librstab/src/lib.rs:276-292 | Their candidates are (8, 5), then (1, -2). |
| Examples.SecantLineBeyondPoints | librstab/src/lib.rs:276-284 | In line mode (6, 3)-(10, 7) meets the circle (4, 2, 5) at (1, -2) and (8, 5), in that order. |
| Examples.SecantSegment | librstab/src/lib.rs:286-292 | In segment mode (7, 4)-(11, 8) keeps only (8, 5). |
| Examples.SingleCandidateKept | librstab/src/lib.rs:100-135 | A single candidate that passes `within` is the whole segment-mode result. |
| Examples.BottomEdge | librstab/src/lib.rs:215-234 | The square's edge (0, 0)-(10, 0) touches the circle (5, 5, 5) only at (5, 0). |
| Examples.RightEdge | librstab/src/lib.rs:215-234 | The vertical edge (10, 0)-(10, 10) touches it only at (10, 5). |
| Examples.TopEdge | librstab/src/lib.rs:215-234 | The edge (10, 10)-(0, 10) touches it only at (5, 10). |
| Examples.LeftEdge | librstab/src/lib.rs:215-234 | The vertical edge (0, 10)-(0, 0) touches it only at (0, 5). |
| Examples.SquareWellPosed | librstab/src/lib.rs:215-222 | Every edge of the closed square can be intersected. |
| Examples.FourEdges | librstab/src/lib.rs:144-158 | Four edges yielding one point each give the four points in edge order. |
| Examples.SquareLayer | librstab/src/lib.rs:215-234 | The closed 10 x 10 square against the circle (5, 5, 5) yields exactly (5, 0), (10, 5), (5, 10), (0, 5): four points. |

## Left out

- `Geometry::from_json_file` (librstab/src/lib.rs:177-181) and the two tests that read `testdata/1.json`: file I/O and JSON deserialisation.
- `bishop` and the `Bishop` struct: `bishop` is a stub that returns a constant.
- The `Geometry` struct: it is only built by `from_json_file`.
- The `Circle` struct: the code does not use it.
- The layer's `y_dry`, `y_sat`, `c` and `phi`: they are carried in `Shapes.Layer` and never read.
- f64 behaviour is not modelled:
  - rounding;
  - infinities and NaN;
  - the panic of `partial_cmp(..).unwrap()` on a NaN coordinate;
  - whether the exact `d == 0.0` test is ever met in floating point.

  The model keeps the exact test as written.
- The square root is a parameter; properties that need it assume only that it is a true square root on the non-negative reals.
- LineCircle.CircleIntersections: requires `WellPosed(line)`, which the source does not check. It rules out two kinds of input.
  - Coincident end points give a = 0, and the division at -b/2a is 0/0.
  - End points with ca == 0 and 0 < |cb| < EPS take the y branch, whose `fy` divides by ca == 0.

  The source does not raise an error for either kind.
  - In line mode it returns points with NaN or infinite coordinates, or panics in the sort (librstab/src/lib.rs:135) when one of two pushed points has a NaN x.
  - It returns nothing when rounding makes the discriminant, zero over the reals, negative.
  - In segment mode such a point fails `within`, so the result is empty.
- LayerCircle.CircleIntersections: requires `WellPosedPolyline`, the same condition for every edge. It excludes, for example, two equal consecutive points.
  - The layer uses only segment mode.
  - In f64 such an edge contributes nothing: its point has a NaN or infinite coordinate and fails `within`, or rounding makes its discriminant negative.
  - `LayerCircle.SegmentMode` gives such an edge the same empty result.
- LayerCircle.SegmentMode: yields nothing for an edge that is not well posed. Under the precondition above this case never arises.
- PointLists.SortByX: `sort_unstable_by` is modelled as a stable insertion sort, applied to the vector's value rather than in place. On the at most two points it sees, points with equal x keep their push order. The source's unstable sort does not promise this.
- Examples.VerticalLine: states the order (0, 4), (0, -4) of two points with equal x. This order is fixed by the model's sort, not by the source. The test checks only the x coordinates.
