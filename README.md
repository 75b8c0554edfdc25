# Edge-detection frame processor and point clusters

This project models the frame processor of a drone-vision prototype in
Dafny, and proves properties of that model. The processor has three parts:

- **A feedback controller.** It adapts the line-detection threshold
  `theta` from frame to frame, using the number of detected lines and the
  time taken per frame.
- **Line retention.** It keeps the detected lines that form valid line
  objects, unless the controller reports too many lines.
- **The clustering step.** It groups the intersection points of the kept
  lines by their density-based labels. It drops noise and dead clusters,
  ranks the clusters by size (stable, largest first) and takes the
  centroid of the largest.

It also models the `Cluster` class, a growable point list with a running
count, and the rounded extent helpers used to draw a cluster's box.

Files:

- `wrappers.dfy`: the `Option` datatype.
- `pynum.dfy` (module `PyNum`): Python's `int(round(x, 0))` (round half to
  even) and `int(x)` (truncation toward zero) on exact reals.
- `cluster.dfy` (module `Cluster`): the class `Cluster<P>`, plus
  `Min`/`Max` and their lemmas.
- `ranking.dfy` (module `Ranking`): the stable descending sort by size,
  as a sequence of positions. It comes with a proof that this order is
  the only one that is stable and descending.
- `grouping.dfy` (module `Grouping`): the labels in first-encounter
  order, the members of each label, the group sizes and the ranked
  labels.
- `canny.dfy` (module `Canny`): the controller's specification functions
  and lemmas, and the class `Canny`. Its methods are `CalculateTheta`,
  `ProcessFrameLines`, `ProcessFrame`, `Clustering`, `GroupByLabel` (with
  its loop pass `AssignPoint` and `CollectClusters`) and `RankClusters`.
  Each is proved against those functions.

Conventions of the model:

- A point, a raw detector entry and a line are type parameters.
- The clock reading is a `real` parameter, in seconds.
- The line detector's output is `Option<seq<R>>`: `None` when no line was
  found.
- The `Line` constructor is a function `R -> Option<L>`. It returns `None`
  where it raises `IsNan` or `InvalidLine`.
- The geometry library's self-intersection of the collection of kept
  lines, taken as a list of points, the density-based labelling and the centroid are function parameters. The labelling must
  give one label per point.

Two behaviours of the controller are easy to miss:

- `theta` has no lower clamp. `NoLowerClampExample` shows `theta` going
  from 10 to -990.
- The modifier is never rounded or raised to 1. It is only reset to 1
  when the ratio is not positive. `TooMuchDataMayStallExample` shows a
  "too much data" frame that leaves `theta` unchanged.

## Model

| member | source | states |
|---|---|---|
| PyNum.RoundHalfEven | model/Canny.py:42 | the result is within one half of `x`, and on an exact tie it is even |
| PyNum.TruncToZero | model/Canny.py:40 | the result has the sign of `x` and is `x` with its fraction dropped toward zero |
| PyNum.RoundIsNearest | model/Canny.py:46 | an integer strictly closer than one half to `x` is its rounding |
| PyNum.RoundTieIsEven | model/Canny.py:42 | an exact tie rounds to the even neighbour |
| PyNum.RoundOfInteger | model/Cluster.py:25 | an integral value rounds to itself |
| PyNum.RoundMonotone | model/Cluster.py:24-28 | rounding preserves order |
| Cluster.SeqMin | model/Cluster.py:25 | `min(lst)` is an element of the list and at most every element |
| Cluster.SeqMax | model/Cluster.py:28 | `max(lst)` is an element of the list and at least every element |
| Cluster.Cluster.constructor | model/Cluster.py:6-11 | a new cluster has no points, count 0 and border 2, and its count equals its length |
| Cluster.Cluster.Add | model/Cluster.py:13-15 | appends the point after the earlier points, increments the count by exactly 1, and keeps count == number of points |
| Cluster.Cluster.ClusterSize | model/Cluster.py:21-22 | the size is the number of points |
| Cluster.Cluster.IsDead | model/Canny.py:103 | a cluster is dead exactly when it has no points |
| Cluster.Cluster.Min | model/Cluster.py:24-25 | the lower edge is within one half of some coordinate minus border/2, and at most every coordinate minus border/2 plus one half; a tie on the shifted minimum goes to the even integer |
| Cluster.Cluster.Max | model/Cluster.py:27-28 | as written: the upper edge is at least every coordinate minus border/2 minus one half, and within one half of some coordinate minus border/2; a tie on the shifted maximum goes to the even integer |
| Cluster.Cluster.InflatedMax | model/Cluster.py:27-28 | corrected upper edge: at least every coordinate plus border/2 minus one half, and within one half of some coordinate plus border/2; a tie on the shifted maximum goes to the even integer |
| Cluster.MinAtMostMax | model/Cluster.py:24-28 | for any non-empty list, the lower edge never exceeds the upper edge |
| Cluster.MinOnIntegralCoordinates | model/Cluster.py:24-25 | with integral coordinates and border 2, the lower edge is exactly `min(lst) - 1` |
| Cluster.MaxOnIntegralCoordinates | model/Cluster.py:27-28 | with integral coordinates and border 2, the upper edge is exactly `max(lst) - 1` |
| Cluster.MaxExcludesLargest | model/Cluster.py:27-28 | with border 2, the upper edge lies strictly below the largest coordinate |
| Cluster.InflatedExtentCovers | model/Cluster.py:24-28 | with a border of at least 1, every coordinate lies between the lower edge and the corrected upper edge |
| Ranking.Insert | model/Canny.py:104 | inserting a new position keeps the order stable and descending, and adds exactly that position |
| Ranking.RankPrefix | model/Canny.py:104 | the ranked order of the first n positions holds exactly those positions, stable and descending |
| Ranking.SortOrder | model/Canny.py:104 | `sorted(..., reverse=True)` by size: a permutation of all positions, sizes non-increasing along it, equal sizes in original order |
| Ranking.FirstIsEarliestLargest | model/Canny.py:104-106 | the first position has a maximal size and is the earliest position of that size |
| Ranking.RankedIsUnique | model/Canny.py:104 | two stable descending orders of the same positions are equal, so the sort's result is determined |
| Grouping.FirstEncounter | model/Canny.py:90-96 | the dict's keys: exactly the non-noise labels that occur, each once |
| Grouping.Members | model/Canny.py:92-98 | the points a label's cluster receives: no more than there are points |
| Grouping.MemberIdx | model/Canny.py:92-98 | the positions carrying a label, exactly and in increasing order |
| Grouping.MembersAtPositions | model/Canny.py:92-98 | a label's cluster holds the points at that label's positions, in position order |
| Grouping.MembersOfAbsent | model/Canny.py:95-96 | a label not yet met has no points, so its new cluster starts empty |
| Grouping.MembersStep | model/Canny.py:92-98 | one loop step adds the current point to its own label's cluster only |
| Grouping.GroupSizes | model/Canny.py:100-104 | the size of each key's cluster is the number of positions with that label, at least 1 |
| Grouping.NoKeyIffAllNoise | model/Canny.py:90-96 | the dict stays empty exactly when every label is noise |
| Grouping.RankedKeys | model/Canny.py:104 | the labels in the sorted order of their clusters: one per key of the dict |
| Grouping.FirstEncounterOrder | model/Canny.py:90-96 | every occurrence of a later key is preceded by an occurrence of each earlier key |
| Grouping.AssignedOnce | model/Canny.py:92-98 | a non-noise point is at a position of its own label and of no other, and it is listed once |
| Grouping.RankedKeysCover | model/Canny.py:90-104 | the ranked labels are exactly the distinct non-noise labels: none lost by the dead filter or the sort, none repeated |
| Grouping.RankedKeysDescending | model/Canny.py:104 | cluster sizes never increase along the ranked labels |
| Grouping.RankedTiesKeepEncounterOrder | model/Canny.py:104 | of two equally sized clusters, the one ranked first has its label met first |
| Grouping.DominantKey | model/Canny.py:104-108 | the first ranked cluster is of maximal size, and an equally large one has its label met later |
| Grouping.NoClusterIffAllNoise | model/Canny.py:86-109 | there are no clusters exactly when every label is noise |
| Canny.Modifier | model/Canny.py:27-33 | the modifier is always positive |
| Canny.SelectRule | model/Canny.py:37-46 | which branch of the if/elif chain fires: too slow exactly when over the time budget; too few lines exactly when in time with under 10 lines and theta above the step; too much data exactly when in time, not too few, and over 50 lines |
| Canny.Step | model/Canny.py:42 | `int(round(step * modifier, 0))`: within one half of the product, an exact tie going to the even integer, and never negative for a non-negative step and modifier |
| Canny.NextTheta | model/Canny.py:37-46 | theta after one frame under the first rule that applies: unchanged when none applies, never raised by the too-few-lines rule and never lowered by the others when the step is non-negative |
| Canny.ModifierCases | model/Canny.py:27-33 | the modifier is 1 with no previous count or a non-positive one, and otherwise times the line count it equals twice the previous count |
| Canny.TooSlowRaisesByTwo | model/Canny.py:37-40 | over the 1/10 s budget, the too-slow rule fires whatever the line count, and theta rises by int(5 * 0.5) = 2 |
| Canny.TooFewLinesLowers | model/Canny.py:41-42 | in time, with under 10 lines and theta above 5, theta falls by round(5 * modifier), which is at least 1 |
| Canny.TooMuchDataRaises | model/Canny.py:44-46 | in time, with over 50 lines, theta rises by round(5 * modifier) and never falls |
| Canny.SteadyKeepsTheta | model/Canny.py:37-46 | in time, with 10 to 50 lines, or under 10 lines but theta at most the step, no rule fires and theta is unchanged |
| Canny.FewLinesAfterManyExample | model/Canny.py:41-42 | from theta 150 after 40 lines, a timely frame of 5 lines gives modifier 16, and theta becomes 70 |
| Canny.NoLowerClampExample | model/Canny.py:41-42 | from theta 10 after 100 lines, a timely frame of 1 line gives theta -990: there is no lower clamp |
| Canny.TooMuchDataMayStallExample | model/Canny.py:44-46 | from theta 150 after 1 line, a timely frame of 60 lines leaves theta at 150 |
| Canny.Retained | model/Canny.py:63-69 | at most as many lines are retained as were detected |
| Canny.Accepted | model/Canny.py:63-69 | exactly the raw positions whose construction succeeds, in increasing order |
| Canny.RetainedIsAcceptedSubsequence | model/Canny.py:63-69 | the retained list is the built lines of the accepted positions, in order |
| Canny.RetainedMembership | model/Canny.py:63-69 | a line is retained exactly when some detected entry builds it |
| Canny.LinesForClustering | model/Canny.py:59-73 | the list handed to clustering is empty without detector output or with over `line_max` lines; otherwise its j-th line is the line built from the j-th entry whose construction succeeds, so every such line is kept, in detector order |
| Canny.FrameLabels | model/Canny.py:86-88 | one label per intersection point; none when there are no points |
| Canny.LiveClusters | model/Canny.py:103 | every kept cluster is valid and holds a point, at most as many are kept as given, and all are kept when none is dead |
| Canny.LivePositions | model/Canny.py:103 | exactly the positions of the clusters that hold a point, in increasing order |
| Canny.LiveClustersKeepOrder | model/Canny.py:103 | the filter keeps exactly the clusters that hold a point, in their original order: the j-th kept cluster is the one at the j-th live position |
| Canny.SizesOf | model/Canny.py:104 | `cluster_size()` of each cluster, in order, is its number of points |
| Canny.ClusteringResult | model/Canny.py:100-109 | what the clustering step returns: the clusters of the ranked labels, distinct, each holding its label's points, and the centroid of the first; the centre is None exactly when there are no clusters |
| Canny.Grouped | model/Canny.py:90-100 | the clusters the grouping loop leaves, in first-encounter order of their labels; there are none exactly when every label is noise |
| Canny.GroupedSizes | model/Canny.py:100-104 | no grouped cluster is dead, and their sizes are the label group sizes |
| Canny.PickedDistinct | model/Canny.py:103-104 | picking clusters along a permutation keeps them pairwise distinct objects |
| Canny.RankedContents | model/Canny.py:100-104 | the i-th cluster picked along the sort order holds the points of the i-th ranked label |
| Canny.RankedGrouping | model/Canny.py:100-108 | ranking the grouped clusters yields the clustering result: ranked clusters and the centroid of the first |
| Canny.PickedFromGrouped | model/Canny.py:103-104 | since the filter drops no grouped cluster, the sort runs on the label group sizes and picks grouped clusters |
| Canny.RankOrderBounds | model/Canny.py:103-104 | the filter drops no grouped cluster, and the sort order lists a position of each |
| Canny.ClustersDescending | model/Canny.py:104 | along the returned clusters the number of points never increases |
| Canny.ClusterTiesKeepEncounterOrder | model/Canny.py:104 | of two returned clusters of equal size, the earlier one's label occurs before every point of the later one |
| Canny.Canny.constructor | model/Canny.py:15-24 | a fresh processor has Canny threshold 50, theta 150, step 5, no previous count, the given clock reading and line_max 100 |
| Canny.Canny.CalculateTheta | model/Canny.py:26-52 | the new theta follows the first rule that applies; the count and time are recorded even when TooManyLines is raised; TooManyLines is raised iff lines > line_max |
| Canny.Canny.ProcessFrameLines | model/Canny.py:54-73 | no detector output leaves the controller untouched; otherwise theta is adapted first, and the kept lines are the lines that build, in order, or none after TooManyLines |
| Canny.Canny.ProcessFrame | model/Canny.py:54-73 | one frame: the controller update, then the clustering result for the intersection points of the kept lines; too many lines leaves no cluster and no centre, provided the intersection of no lines has no points |
| Canny.Canny.GroupByLabel | model/Canny.py:90-100 | one new distinct cluster per non-noise label in first-encounter order, each holding exactly the points of that label |
| Canny.Canny.AssignPoint | model/Canny.py:92-98 | one loop pass: the dict still maps the labels met so far, in first-encounter order, to distinct valid clusters holding exactly their points; every key already present keeps its cluster object, and any other cluster is new |
| Canny.Canny.CollectClusters | model/Canny.py:100 | `[c for _, c in clusters.items()]`: the dict's clusters in key insertion order |
| Canny.Canny.RankClusters | model/Canny.py:102-108 | the live clusters, sorted stably by size with the largest first, and the centroid of the first |
| Canny.Canny.Clustering | model/Canny.py:76-109 | the clusters are one per distinct non-noise label, in the ranked order, each holding its label's points; the centre is the centroid of the first, or None when there are no clusters |

## Left out

- Edge detection, line detection and the density-based labelling are
  foreign library calls. They appear as inputs: the detector's output and
  a labelling function.
- The geometry library's self-intersection of the collection of kept
  lines (`gc.intersection(gc)`), its `LineString` special case and the centroid are floating-point
  computational geometry. They appear only as the function parameters
  `intersect` and `centroidOf`.
- The `TypeError` handler of the clustering step is not modelled, since
  it guards the geometry calls.
- Logging and the wall clock are not modelled. The clock reading is a
  parameter.
- Floating-point arithmetic is modelled on exact reals. The modifier is
  an exact ratio, so a float product that lands just off a .5 tie may
  round differently.
- The cluster's random colour and its rendering are not modelled.
- The display loop, the application script and the drone wrapper are not
  modelled, because they are UI, video I/O and concurrency.
- The line class is not part of this model. Its construction is the
  abstract `build`, and its `TooManyPoints` exception is not modelled.
  If a line construction raised it, the loop at model/Canny.py:63-69
  would stop there, and the lines built so far would still be clustered.
  `Canny.Canny.ProcessFrameLines` always runs to the end of the list.
- `Cluster.Cluster.IsDead`: the cluster class has no `is_dead`, yet the
  clustering step calls it. It is taken to mean that the count is 0.
  As the code stands, `c.is_dead()` raises AttributeError. The handler at
  model/Canny.py:110 catches only TypeError, so `process_frame` would
  raise on every frame that has a non-noise label. The model does not
  capture that failure.
- `Canny.Canny.GroupByLabel`: the point class is not part of this model.
  `set_cluster` is taken to be `cluster.add(point)`, with no other effect
  on the cluster.
- `Canny.Canny.CalculateTheta` requires `lines > 0`. The source divides
  by the line count, and its only caller passes the length of a non-empty
  detector result.
- `Canny.Canny.ProcessFrame` returns `Cluster` objects and a centre of
  the point type. The source builds its centre `Point` from the centroid.

## Findings

| source | as written | input that shows it | evidently intended | confidence | as-written member | corrected member |
|---|---|---|---|---|---|---|
| model/Cluster.py:27-28 | the upper edge of the box subtracts border/2 from the largest coordinate, copying the lower edge's shift | `lst = [5.0]` with border 2: lower edge 4, upper edge 4, so the box ends below the coordinate 5 it should enclose | the upper edge adds border/2, so the box is inflated on both sides | medium, not executed | Cluster.Cluster.Max (Cluster.MaxExcludesLargest) | Cluster.Cluster.InflatedMax (Cluster.InflatedExtentCovers) |
