# Point-set routines of two Grasshopper components, modelled in Dafny

This project models the algorithmic core of two Grasshopper components
that work on 3D point sets.

- **NextClosestPoint** (`NCP/NCPComponent.cs`). The local function `supps`
  grows a list of obstacle points. Each round scores every candidate point
  by the product of its distances to all current obstacles. It keeps a
  running best `(minGap, newIdx)` under the test
  `minGap == 0 || (gap < minGap && !obstacles.Contains(candidate))`, where
  `minGap` starts at 0. It appends the winning candidate to a copy of the
  obstacle list and recurses until the list holds `steps` points. The
  component calls `supps(s + o.Count, c, o)`.
- **RangeClustering**
  (`ClosestPointsWithinRange/ClosestPointsWithinRangeComponent.cs`). Search
  point `i` is inserted into an R-tree under id `i`. Then one sphere search
  per focus point, all with the same radius, collects the reported ids. The
  ids become the branch `{i}` of the output tree, and a focus with no hits
  gets an explicit empty branch.

Files:

- `geometry.dfy`: module `Geometry`. It holds points with integer
  coordinates and the squared Euclidean distance.
- `next_closest_point.dfy`: module `NextClosestPoint`. It holds the
  specification functions `Score`, `Scan`, `PickIndex`, `Extend` and
  `Selection`, the lemmas about them, and the loop implementation
  (`Gap`, `NextIndex`, `Supps`, `NextClosestPoints`). Each loop method is
  proved equal to its specification function.
- `range_clustering.dfy`: module `RangeClustering`. It holds the distance
  filter (`Within`, `Hits`, `Neighbours`) and the index as a class
  `RTree`, built by `Insert` and only read by `Search`. It also holds the
  output tree as a sequence of branches with `EnsurePath` and `Add`, and
  the component method `ClosestPointsWithinRange`.

**Squared distances.** Rhino's `DistanceTo` returns a square root of a
double. The model uses integer coordinates and keeps distances squared.
Every distance is non-negative. Squaring is strictly monotone on
non-negative numbers and maps 0 to 0. So the product of squared distances
is the square of the product of distances, and every `== 0` and `<`
decision that `supps` takes is taken the same way in the model. In exact
arithmetic a score is 0 exactly when the candidate coincides with an
obstacle (`Score`).

**What the selection actually picks.** The code keeps the *least* product,
as its comment "least combined distance" says, not the largest. Because of
the sentinel, `ScanSelects` shows that the pick is one of two things:

- the first candidate with the least positive score among the candidates
  that are not obstacles yet;
- the last candidate, when every candidate is already an obstacle. That
  candidate is then appended again, a duplicate (`AllPlacedAppendsDuplicate`).

With no obstacles every score is 1, so the first candidate is picked
(`FirstPickWithoutObstacles`). Take candidates (0,0,0), (10,0,0), (5,5,0),
the obstacle (0,0,0) and one step. The code gives [(0,0,0), (5,5,0)]
(`WorkedExample`). A farthest-point reading of the component would give
(10,0,0) instead. The model follows the code.

## Model

| member | source | states |
|---|---|---|
| `Geometry.SqDist` | NCP/NCPComponent.cs:93 | the squared distance is 0 exactly when the two points are equal |
| `NextClosestPoint.Score` | NCP/NCPComponent.cs:90-94 | the product of a candidate's distances to all obstacles is 0 exactly when the candidate is one of the obstacles (what makes the `Contains` test and the sentinel interact) |
| `NextClosestPoint.Gap` | NCP/NCPComponent.cs:90-94 | the inner loop, starting from 1 and multiplying by each obstacle's distance, computes `Score`; the gap is 0 exactly for an obstacle |
| `NextClosestPoint.Scan` | NCP/NCPComponent.cs:84-100 | after any non-empty prefix of candidates the running best's index lies in that prefix and its `minGap` is that candidate's score |
| `NextClosestPoint.PickIndex` | NCP/NCPComponent.cs:84-100 | the index `newIdx` holds after the scan over all candidates; it is a valid index whenever there is a candidate |
| `NextClosestPoint.ScanSelects` | NCP/NCPComponent.cs:84-100 | the scan with the sentinel test picks the first least-scoring candidate that is not an obstacle, or the last candidate looked at when every candidate is an obstacle; ties keep the earlier index |
| `NextClosestPoint.PickIndexSelects` | NCP/NCPComponent.cs:84-102 | the index used at line 102 is in range for a non-empty candidate list, and is the pick described by `ScanSelects` over the whole list |
| `NextClosestPoint.FirstLeastScoringUnique` | NCP/NCPComponent.cs:95-99 | the "first least-scoring non-obstacle" characterisation names exactly one index, so it determines the pick |
| `NextClosestPoint.FirstPickWithoutObstacles` | NCP/NCPComponent.cs:84-99 | with no obstacles every score is 1 and the first candidate is picked |
| `NextClosestPoint.AllPlacedAppendsDuplicate` | NCP/NCPComponent.cs:95-102 | when every candidate is already an obstacle, the sentinel lets the last candidate through and it is appended a second time |
| `NextClosestPoint.Extend` | NCP/NCPComponent.cs:78-82 | one round keeps the old obstacles unchanged and in order and appends exactly one point, which is a candidate |
| `NextClosestPoint.Selection` | NCP/NCPComponent.cs:67-104 | the recursion ends with exactly `steps` points, the first ones being the original obstacles unchanged and in order |
| `NextClosestPoint.SelectionPicksInOrder` | NCP/NCPComponent.cs:72-104 | every appended point is `candidates[i]` for the index picked against all the points before it, so points are appended in selection order |
| `NextClosestPoint.PicksInOrderIsSelection` | NCP/NCPComponent.cs:72-104 | conversely, any list of length `steps` that starts with the obstacles and appends each round's pick is the result of `supps` |
| `NextClosestPoint.SelectionFromCandidates` | NCP/NCPComponent.cs:102-104 | every appended point is one of the candidates |
| `NextClosestPoint.WorkedExampleScores` | NCP/NCPComponent.cs:90-94 | against the obstacle (0,0,0), the candidates (0,0,0), (10,0,0) and (5,5,0) score 0, 100 and 50 (squared) |
| `NextClosestPoint.WorkedExample` | NCP/NCPComponent.cs:67-107 | with those candidates and one step the result is [(0,0,0), (5,5,0)]: the smallest product wins |
| `NextClosestPoint.NextIndex` | NCP/NCPComponent.cs:84-100 | the loop over candidates with the sentinel test returns the specified pick, in range whenever there is a candidate |
| `NextClosestPoint.Supps` | NCP/NCPComponent.cs:67-105 | the tail recursion as a loop that copies the obstacles into a fresh list and appends the pick computes `Selection` |
| `NextClosestPoint.NextClosestPoints` | NCP/NCPComponent.cs:107 | for `s >= 0` (and a candidate when `s > 0`) the output has `|o| + s` points, starts with `o` unchanged, adds only candidates, and is `o` itself when `s == 0` |
| `RangeClustering.Within` | ClosestPointsWithinRange/ClosestPointsWithinRangeComponent.cs:86-90 | the sphere test is a closed ball: at radius 0 a point lies in it exactly when it coincides with the centre |
| `RangeClustering.Indexed` | ClosestPointsWithinRange/ClosestPointsWithinRangeComponent.cs:71-75 | the index contents after the insertion loop: one entry per search point, entry `k` being `points[k]` under id `k` |
| `RangeClustering.Hits` | ClosestPointsWithinRange/ClosestPointsWithinRangeComponent.cs:89-90 | the ids the search reports over a list of entries, at most one per entry (exact membership in `HitsMembers`) |
| `RangeClustering.Neighbours` | ClosestPointsWithinRange/ClosestPointsWithinRangeComponent.cs:86-90 | what the search around one focus reports on the built index, at most one id per search point (exact membership in `NeighboursWithin`) |
| `RangeClustering.HitsMembers` | ClosestPointsWithinRange/ClosestPointsWithinRangeComponent.cs:52 | the search reports an id exactly when some indexed point with that id lies within the radius of the centre |
| `RangeClustering.NeighboursWithin` | ClosestPointsWithinRange/ClosestPointsWithinRangeComponent.cs:72-90 | on the index built from the search points, id `j` is reported exactly when `0 <= j < |points|` and `points[j]` lies within `distance` of the focus |
| `RangeClustering.HitsIncreasing` | ClosestPointsWithinRange/ClosestPointsWithinRangeComponent.cs:89-90 | over entries with increasing ids the filter reports increasing ids, so no id is reported twice |
| `RangeClustering.NeighboursIncreasing` | ClosestPointsWithinRange/ClosestPointsWithinRangeComponent.cs:72-90 | each qualifying search point's id is reported exactly once |
| `RangeClustering.RTree.constructor` | ClosestPointsWithinRange/ClosestPointsWithinRangeComponent.cs:71 | a new index holds no entries |
| `RangeClustering.RTree.Insert` | ClosestPointsWithinRange/ClosestPointsWithinRangeComponent.cs:74 | inserting adds exactly the point with its id and keeps the earlier entries |
| `RangeClustering.RTree.Search` | ClosestPointsWithinRange/ClosestPointsWithinRangeComponent.cs:86-90 | for a non-negative radius the callback collects exactly the ids of the entries within the sphere, each as often as the filter reports it, in an unspecified order; the search does not modify the index |
| `RangeClustering.BuildIndex` | ClosestPointsWithinRange/ClosestPointsWithinRangeComponent.cs:71-75 | after the insertion loop the index holds `points[i]` under id `i` for every `i`, in order |
| `RangeClustering.EnsurePath` | ClosestPointsWithinRange/ClosestPointsWithinRangeComponent.cs:94 | ensuring a missing path adds one empty branch there and changes no existing branch |
| `RangeClustering.Add` | ClosestPointsWithinRange/ClosestPointsWithinRangeComponent.cs:98-101 | adding an item appends it to the branch at the path, creating that branch if needed, and changes no other branch |
| `RangeClustering.Group` | ClosestPointsWithinRange/ClosestPointsWithinRangeComponent.cs:93-102 | the reported ids of focus `i` become branch `i` exactly, in reported order, an empty branch when there are none, and the earlier branches are unchanged |
| `RangeClustering.BranchMembers` | ClosestPointsWithinRange/ClosestPointsWithinRangeComponent.cs:89-101 | a branch holding the reported ids in any order contains exactly the ids of the points within the radius |
| `RangeClustering.ClosestPointsWithinRange` | ClosestPointsWithinRange/ClosestPointsWithinRangeComponent.cs:71-104 | for a non-negative `distance`, the output has exactly one branch per focus, empty ones included. Branch `i` holds the ids the search around `foci[i]` with the shared `distance` reports, and contains `j` exactly when `points[j]` lies within `distance` of `foci[i]`. It depends on no other focus |

## Left out

- Floating point is not modelled. Coordinates are integers and distances are squared, exact integers. So the model does not show what a `double` product can do: underflow to 0.0 (a candidate very close to, but not on, the obstacles then scores 0.0 like an obstacle and resets the sentinel), overflow to infinity, or rounding that turns a strict `<` into a tie.
- Non-integer coordinates are not modelled. With rational coordinates every decision would be the same after scaling, but the model does not prove that.
- `NextClosestPoint.NextClosestPoints`: requires `s >= 0`. For a negative `s` the source starts above its target, only grows, and recurses without end (a stack overflow). No error result is invented for this.
- `NextClosestPoint.NextClosestPoints`: requires a candidate when `s > 0`. With no candidates the source indexes `candidates[0]` and throws. `NextIndex` still models that scan, which returns 0 on an empty list.
- Recursion depth is not modelled: `supps` is a loop with an accumulator.
- Aliasing is not modelled. When `s == 0` the source returns the very list object it was given. Lists here are values, so "the input is not mutated" holds by construction and the model says nothing about object identity.
- `RangeClustering.RTree.Search`: promises the reported ids only up to order (as a multiset), not the order its loop happens to produce. Rhino's R-tree reports in its own traversal order. Its pruning by bounding boxes is not modelled, only the exact sphere test it answers.
- `RangeClustering.ClosestPointsWithinRange` and `RangeClustering.RTree.Search`: require a non-negative radius. How Rhino's `Sphere` and `RTree.Search` treat a negative radius is not shown in the source, and Rhino's library is not part of this model, so the model promises nothing for it.
- The `bool` returned by Rhino's `RTree.Insert` is ignored, as the source ignores it.
- Grasshopper's `DataTree` and `GH_Path` are a sequence of branches indexed by focus. Paths are always created in the order 0, 1, 2, …, so this loses nothing the component relies on.
- Grasshopper plumbing is not modelled: component constructors, parameter registration, `DA.GetData*`/`SetData*`, icons and GUIDs.
- A concrete range-query scenario (points (0,0,0), (10,0,0), (0,10,0), radius 5 around the origin) is not proved as a lemma. `NeighboursWithin` states the general rule it follows from.
- The component reports no errors, keeps the least product rather than the greatest, and can re-append a candidate. The model follows the code: preconditions instead of error results, least product, and duplicates possible (`AllPlacedAppendsDuplicate`).
