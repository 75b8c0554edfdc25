/**
 * The frame processor: the feedback controller that adapts the line
 * detection threshold theta, the retention of the detected lines that
 * form valid Line objects, and the grouping and ranking of the
 * intersection points into clusters.
 */
module Canny {
  import opened Wrappers
  import opened PyNum
  import opened Grouping
  import Ranking
  import Cluster

  /** How `calculate_theta` ends: normally, or by raising TooManyLines. */
  datatype Status = Adapted | TooManyLines

  /** The controller's rule for one frame; the first that applies wins. */
  datatype Rule = TooSlow | TooFewLines | TooMuchData | Steady

  /** The frame budget, in seconds (a 10 frames-per-second target). */
  const FrameBudget: real := 0.1

  /**
   * The step factor: twice the ratio of the previous line count to the
   * current one, or 1 when there is no previous count or the ratio is
   * not positive.
   */
  function Modifier(last: Option<int>, lines: int): (m: real)
    requires lines > 0
    ensures m > 0.0
  {
    if last.Some? then
      var ratio := (last.value as real / lines as real) * 2.0;
      if ratio <= 0.0 then 1.0 else ratio
    else 1.0
  }

  /** Which rule a frame triggers: each rule fires exactly when its condition holds and no earlier one's does. */
  function SelectRule(theta: int, thetaModifier: int, lastTime: real, lines: int, now: real): (r: Rule)
    ensures r == TooSlow <==> now - lastTime > FrameBudget
    ensures r == TooFewLines <==> now - lastTime <= FrameBudget && lines < 10 && theta > thetaModifier
    ensures r == TooMuchData <==>
      now - lastTime <= FrameBudget && !(lines < 10 && theta > thetaModifier) && lines > 50
  {
    if now - lastTime > FrameBudget then TooSlow
    else if lines < 10 && theta > thetaModifier then TooFewLines
    else if lines > 50 then TooMuchData
    else Steady
  }

  /** The amount theta moves by under the line-count rules: `int(round(theta_modifier * modifier, 0))`. */
  function Step(thetaModifier: int, modifier: real): (r: int)
    ensures -0.5 <= thetaModifier as real * modifier - r as real <= 0.5
    ensures thetaModifier >= 0 && modifier >= 0.0 ==> r >= 0
    ensures var x := thetaModifier as real * modifier; (x - r as real == 0.5 || r as real - x == 0.5) ==> r % 2 == 0
  {
    assert thetaModifier >= 0 && modifier >= 0.0 ==> thetaModifier as real * modifier >= 0.0;
    RoundHalfEven(thetaModifier as real * modifier)
  }

  /** The threshold after one frame, from the controller state before it. */
  function NextTheta(theta: int, thetaModifier: int, last: Option<int>, lastTime: real, lines: int, now: real): (r: int)
    requires lines > 0
    ensures SelectRule(theta, thetaModifier, lastTime, lines, now) == Steady ==> r == theta
    ensures thetaModifier >= 0 && SelectRule(theta, thetaModifier, lastTime, lines, now) == TooFewLines ==> r <= theta
    ensures thetaModifier >= 0 && SelectRule(theta, thetaModifier, lastTime, lines, now) != TooFewLines ==> r >= theta
  {
    var step := Step(thetaModifier, Modifier(last, lines));
    match SelectRule(theta, thetaModifier, lastTime, lines, now)
    case TooSlow => theta + TruncToZero(thetaModifier as real * 0.5)
    case TooFewLines => theta - step
    case TooMuchData => theta + step
    case Steady => theta
  }

  /**
   * The modifier is 1 when there is no previous count or it is not
   * positive, and twice the ratio of the previous to the current count
   * otherwise.
   */
  lemma ModifierCases(last: Option<int>, lines: int)
    requires lines > 0
    ensures (last.None? || last.value <= 0) ==> Modifier(last, lines) == 1.0
    ensures (last.Some? && last.value > 0) ==> Modifier(last, lines) * lines as real == 2.0 * last.value as real
  {
    if last.Some? {
      var q := last.value as real / lines as real;
      assert q * lines as real == last.value as real;
      if last.value <= 0 {
        assert q <= 0.0;
      } else {
        assert q > 0.0;
      }
    }
  }

  /** Too slow: theta rises by int(5 * 0.5) = 2, whatever the line count. */
  lemma TooSlowRaisesByTwo(theta: int, last: Option<int>, lastTime: real, lines: int, now: real)
    requires lines > 0 && now - lastTime > FrameBudget
    ensures SelectRule(theta, 5, lastTime, lines, now) == TooSlow
    ensures NextTheta(theta, 5, last, lastTime, lines, now) == theta + 2
  {
  }

  /**
   * In time, fewer than 10 lines and theta above the step: theta falls by
   * round(5 * modifier), which is at least 1. Nothing bounds it from below.
   */
  lemma TooFewLinesLowers(theta: int, last: Option<int>, lastTime: real, lines: int, now: real)
    requires 0 < lines < 10 && now - lastTime <= FrameBudget && theta > 5
    ensures SelectRule(theta, 5, lastTime, lines, now) == TooFewLines
    ensures NextTheta(theta, 5, last, lastTime, lines, now) == theta - RoundHalfEven(5.0 * Modifier(last, lines))
    ensures NextTheta(theta, 5, last, lastTime, lines, now) < theta
  {
    var m := Modifier(last, lines);
    ModifierCases(last, lines);
    if last.Some? && last.value > 0 {
      assert m * lines as real >= 2.0;
      assert m * 10.0 > 2.0;
    }
    assert 5.0 * m > 0.5;
  }

  /**
   * In time and more than 50 lines: theta rises by round(5 * modifier) and
   * never falls.
   */
  lemma TooMuchDataRaises(theta: int, last: Option<int>, lastTime: real, lines: int, now: real)
    requires lines > 50 && now - lastTime <= FrameBudget
    ensures SelectRule(theta, 5, lastTime, lines, now) == TooMuchData
    ensures NextTheta(theta, 5, last, lastTime, lines, now) == theta + RoundHalfEven(5.0 * Modifier(last, lines))
    ensures NextTheta(theta, 5, last, lastTime, lines, now) >= theta
  {
  }

  /** In time, with 10 to 50 lines, or too few lines but theta already at most the step: theta stays. */
  lemma SteadyKeepsTheta(theta: int, thetaModifier: int, last: Option<int>, lastTime: real, lines: int, now: real)
    requires lines > 0 && now - lastTime <= FrameBudget
    requires 10 <= lines <= 50 || (lines < 10 && theta <= thetaModifier)
    ensures SelectRule(theta, thetaModifier, lastTime, lines, now) == Steady
    ensures NextTheta(theta, thetaModifier, last, lastTime, lines, now) == theta
  {
  }

  /**
   * From theta 150 after a frame of 40 lines, a timely frame of 5 lines
   * gives modifier 16 and lowers theta by 80, to 70.
   */
  lemma FewLinesAfterManyExample()
    ensures Modifier(Some(40), 5) == 16.0
    ensures NextTheta(150, 5, Some(40), 0.0, 5, 0.05) == 70
  {
    RoundOfInteger(80);
  }

  /**
   * The decrease is not clamped: from theta 10 after a frame of 100 lines,
   * a timely frame of one line lowers theta by 1000, far below the step 5.
   */
  lemma NoLowerClampExample()
    ensures NextTheta(10, 5, Some(100), 0.0, 1, 0.0) == -990
  {
    RoundOfInteger(1000);
  }

  /**
   * Too much data may leave theta unchanged: after a frame of one line, a
   * timely frame of 60 lines gives round(5 * 2/60) = 0.
   */
  lemma TooMuchDataMayStallExample()
    ensures NextTheta(150, 5, Some(1), 0.0, 60, 0.0) == 150
  {
    RoundIsNearest(5.0 * (1.0 / 60.0 * 2.0), 0);
  }

  /** The labels of the intersection points; the labelling is skipped when there are none. */
  function FrameLabels<P>(dbscan: seq<P> -> seq<int>, points: seq<P>): (labels: seq<int>)
    requires points != [] ==> |dbscan(points)| == |points|
    ensures |labels| == |points|
    ensures points == [] ==> labels == []
  {
    if points == [] then [] else dbscan(points)
  }

  /** The list handed to clustering: empty without detector output or with too many lines. */
  function LinesForClustering<R, L>(hough: Option<seq<R>>, build: R -> Option<L>, lineMax: int): (kept: seq<L>)
    ensures hough.None? ==> kept == []
    ensures hough.Some? && lineMax < |hough.value| ==> kept == []
    ensures hough.Some? && |hough.value| <= lineMax ==>
      && |kept| == |Accepted(build, hough.value)|
      && forall j :: 0 <= j < |kept| ==>
           Accepted(build, hough.value)[j] < |hough.value| &&
           build(hough.value[Accepted(build, hough.value)[j]]) == Some(kept[j])
  {
    if hough.None? || lineMax < |hough.value| then []
    else
      RetainedIsAcceptedSubsequence(build, hough.value);
      Retained(build, hough.value)
  }

  /** The lines `Line(...)` accepts, in the order of the raw detector output. */
  function Retained<R, L>(build: R -> Option<L>, raw: seq<R>): (kept: seq<L>)
    ensures |kept| <= |raw|
  {
    if raw == [] then []
    else
      var n := |raw| - 1;
      Retained(build, raw[..n]) + (match build(raw[n]) case Some(l) => [l] case None => [])
  }

  /** The raw positions whose construction succeeds, in increasing order. */
  function Accepted<R, L>(build: R -> Option<L>, raw: seq<R>): (ix: seq<nat>)
    ensures forall i :: i in ix <==> 0 <= i < |raw| && build(raw[i]).Some?
    ensures forall a, b :: 0 <= a < b < |ix| ==> ix[a] < ix[b]
  {
    if raw == [] then []
    else
      var n := |raw| - 1;
      var prev := Accepted(build, raw[..n]);
      assert forall a :: 0 <= a < |prev| ==> prev[a] in prev;
      prev + (if build(raw[n]).Some? then [n] else [])
  }

  /**
   * The retained lines are the built lines of the accepted positions, in
   * order: nothing is reordered, duplicated or invented, and every line
   * that builds is kept.
   */
  lemma {:induction false} RetainedIsAcceptedSubsequence<R, L>(build: R -> Option<L>, raw: seq<R>)
    ensures |Retained(build, raw)| == |Accepted(build, raw)|
    ensures forall j :: 0 <= j < |Retained(build, raw)| ==>
      Accepted(build, raw)[j] < |raw| && build(raw[Accepted(build, raw)[j]]) == Some(Retained(build, raw)[j])
  {
    if raw != [] {
      var n := |raw| - 1;
      RetainedIsAcceptedSubsequence(build, raw[..n]);
      var kept, ix := Retained(build, raw[..n]), Accepted(build, raw[..n]);
      forall j | 0 <= j < |kept| ensures ix[j] < n && raw[ix[j]] == raw[..n][ix[j]] {
      }
    }
  }

  /** A line is retained exactly when some raw entry builds it. */
  lemma RetainedMembership<R, L>(build: R -> Option<L>, raw: seq<R>, l: L)
    ensures l in Retained(build, raw) <==> exists i :: 0 <= i < |raw| && build(raw[i]) == Some(l)
  {
    RetainedIsAcceptedSubsequence(build, raw);
    var kept, ix := Retained(build, raw), Accepted(build, raw);
    if l in kept {
      var j :| 0 <= j < |kept| && kept[j] == l;
      assert build(raw[ix[j]]) == Some(l);
    }
    if i :| 0 <= i < |raw| && build(raw[i]) == Some(l) {
      assert i in ix;
      var j :| 0 <= j < |ix| && ix[j] == i;
      assert kept[j] == l;
    }
  }

  /** `[c for c in clusters if not c.is_dead()]`: the clusters that hold a point, in order. */
  function LiveClusters<P>(cs: seq<Cluster.Cluster<P>>): (live: seq<Cluster.Cluster<P>>)
    reads cs
    requires forall i :: 0 <= i < |cs| ==> cs[i].Valid()
    ensures |live| <= |cs|
    ensures forall j :: 0 <= j < |live| ==> live[j].Valid() && live[j].points != []
    ensures (forall i :: 0 <= i < |cs| ==> cs[i].points != []) ==> live == cs
  {
    if cs == [] then []
    else
      var n := |cs| - 1;
      var prev := LiveClusters(cs[..n]);
      assert forall i :: 0 <= i < n ==> cs[..n][i] == cs[i];
      prev + (if cs[n].IsDead() then [] else [cs[n]])
  }

  /** The positions of the clusters that hold a point, in increasing order. */
  function LivePositions<P>(cs: seq<Cluster.Cluster<P>>): (ix: seq<nat>)
    reads cs
    ensures forall i :: i in ix <==> 0 <= i < |cs| && cs[i].points != []
    ensures forall a, b :: 0 <= a < b < |ix| ==> ix[a] < ix[b]
  {
    if cs == [] then []
    else
      var n := |cs| - 1;
      var prev := LivePositions(cs[..n]);
      assert forall a :: 0 <= a < |prev| ==> prev[a] in prev;
      prev + (if cs[n].points == [] then [] else [n])
  }

  /**
   * The filter keeps exactly the live clusters, in their original order:
   * the `j`-th kept cluster is the one at the `j`-th live position.
   */
  lemma LiveClustersKeepOrder<P>(cs: seq<Cluster.Cluster<P>>)
    requires forall i :: 0 <= i < |cs| ==> cs[i].Valid()
    ensures |LiveClusters(cs)| == |LivePositions(cs)|
    ensures forall j :: 0 <= j < |LiveClusters(cs)| ==>
      LivePositions(cs)[j] < |cs| && LiveClusters(cs)[j] == cs[LivePositions(cs)[j]]
    ensures forall c :: c in LiveClusters(cs) ==> c in cs
    ensures forall i :: 0 <= i < |cs| && cs[i].points != [] ==> cs[i] in LiveClusters(cs)
  {
    LiveOrderByPositions(cs);
    var live, ix := LiveClusters(cs), LivePositions(cs);
    forall c | c in live ensures c in cs {
      var j :| 0 <= j < |live| && live[j] == c;
      assert cs[ix[j]] == c;
    }
    forall i | 0 <= i < |cs| && cs[i].points != [] ensures cs[i] in live {
      assert i in ix;
      var j :| 0 <= j < |ix| && ix[j] == i;
      assert live[j] == cs[i];
    }
  }

  /** The induction behind `LiveClustersKeepOrder`: the kept clusters match the live positions one for one. */
  lemma {:induction false} LiveOrderByPositions<P>(cs: seq<Cluster.Cluster<P>>)
    requires forall i :: 0 <= i < |cs| ==> cs[i].Valid()
    ensures |LiveClusters(cs)| == |LivePositions(cs)|
    ensures forall j :: 0 <= j < |LiveClusters(cs)| ==>
      LivePositions(cs)[j] < |cs| && LiveClusters(cs)[j] == cs[LivePositions(cs)[j]]
  {
    if cs != [] {
      var n := |cs| - 1;
      LiveOrderByPositions(cs[..n]);
      var live, ix := LiveClusters(cs[..n]), LivePositions(cs[..n]);
      forall j | 0 <= j < |live| ensures ix[j] < n && cs[ix[j]] == cs[..n][ix[j]] {
      }
    }
  }

  /** The `cluster_size()` of each cluster, in order. */
  function SizesOf<P>(cs: seq<Cluster.Cluster<P>>): (sizes: seq<int>)
    reads cs
    requires forall i :: 0 <= i < |cs| ==> cs[i].Valid()
    ensures |sizes| == |cs|
    ensures forall i :: 0 <= i < |cs| ==> sizes[i] == |cs[i].points|
  {
    if cs == [] then [] else [cs[0].ClusterSize()] + SizesOf(cs[1..])
  }

  /** What the clustering step returns for points with the given labels. */
  ghost predicate ClusteringResult<P>(points: seq<P>, labels: seq<int>, centroidOf: seq<P> -> P,
                                      cs: seq<Cluster.Cluster<P>>, centre: Option<P>)
    requires |labels| == |points|
    reads cs
    ensures ClusteringResult(points, labels, centroidOf, cs, centre) ==> (cs == [] <==> centre == None)
  {
    var rk := RankedKeys(labels);
    && |cs| == |rk|
    && (forall i :: 0 <= i < |cs| ==> cs[i].Valid() && cs[i].border == 2)
    && (forall i :: 0 <= i < |cs| ==> cs[i].points == Members(points, labels, rk[i]))
    && (forall i, j :: 0 <= i < j < |cs| ==> cs[i] != cs[j])
    && centre == (if cs == [] then None else Some(centroidOf(cs[0].points)))
  }

  /**
   * The clusters built by the grouping loop, in first-encounter order of
   * their labels: one per distinct non-noise label, each holding the
   * points of that label.
   */
  ghost predicate Grouped<P>(points: seq<P>, labels: seq<int>, ordered: seq<Cluster.Cluster<P>>)
    requires |labels| == |points|
    reads ordered
    ensures Grouped(points, labels, ordered) ==>
      (ordered == [] <==> forall p :: 0 <= p < |labels| ==> labels[p] == Noise)
  {
    NoKeyIffAllNoise(labels);
    var keys := FirstEncounter(labels);
    && |ordered| == |keys|
    && (forall i :: 0 <= i < |ordered| ==> ordered[i].Valid() && ordered[i].border == 2)
    && (forall i :: 0 <= i < |ordered| ==> ordered[i].points == Members(points, labels, keys[i]))
    && (forall i, j :: 0 <= i < j < |ordered| ==> ordered[i] != ordered[j])
  }

  /** No grouped cluster is dead, and their sizes are the label group sizes. */
  lemma GroupedSizes<P>(points: seq<P>, labels: seq<int>, ordered: seq<Cluster.Cluster<P>>)
    requires |labels| == |points|
    requires Grouped(points, labels, ordered)
    ensures LiveClusters(ordered) == ordered
    ensures SizesOf(ordered) == GroupSizes(labels)
  {
    var keys, sizes := FirstEncounter(labels), GroupSizes(labels);
    forall i | 0 <= i < |ordered| ensures ordered[i].points != [] && |ordered[i].points| == sizes[i] {
      MembersAtPositions(points, labels, keys[i]);
    }
    assert forall i :: 0 <= i < |ordered| ==> SizesOf(ordered)[i] == sizes[i];
  }

  /** Picking clusters at distinct positions of a list of distinct clusters gives distinct clusters. */
  lemma PickedDistinct<P>(ordered: seq<Cluster.Cluster<P>>, order: seq<nat>, cs: seq<Cluster.Cluster<P>>)
    requires forall a, b :: 0 <= a < b < |ordered| ==> ordered[a] != ordered[b]
    requires forall i, j :: 0 <= i < j < |order| ==> order[i] != order[j]
    requires |cs| == |order|
    requires forall i :: 0 <= i < |cs| ==> order[i] < |ordered| && cs[i] == ordered[order[i]]
    ensures forall i, j :: 0 <= i < j < |cs| ==> cs[i] != cs[j]
  {
    forall i, j | 0 <= i < j < |cs| ensures cs[i] != cs[j] {
      var a, b := order[i], order[j];
      if a < b {
        assert ordered[a] != ordered[b];
      } else {
        assert ordered[b] != ordered[a];
      }
    }
  }

  /**
   * Taking the grouped clusters in the stable descending order of their
   * label group sizes gives, at each rank, the cluster of the ranked label.
   */
  lemma RankedContents<P>(points: seq<P>, labels: seq<int>, ordered: seq<Cluster.Cluster<P>>,
                          order: seq<nat>, cs: seq<Cluster.Cluster<P>>)
    requires |labels| == |points| && Grouped(points, labels, ordered)
    requires order == Ranking.SortOrder(GroupSizes(labels))
    requires |cs| == |order|
    requires forall i :: 0 <= i < |cs| ==> order[i] < |ordered| && cs[i] == ordered[order[i]]
    ensures |cs| == |RankedKeys(labels)|
    ensures forall i :: 0 <= i < |cs| ==> cs[i].Valid() && cs[i].border == 2
    ensures forall i :: 0 <= i < |cs| ==> cs[i].points == Members(points, labels, RankedKeys(labels)[i])
  {
    forall i | 0 <= i < |cs|
      ensures cs[i].points == Members(points, labels, RankedKeys(labels)[i])
    {
      RankedKeysAt(labels, i);
    }
  }

  /**
   * Taking the live grouped clusters in the stable descending order of
   * their sizes gives one distinct cluster per ranked label, holding that
   * label's points, and the centroid of the first.
   */
  lemma RankedGrouping<P>(points: seq<P>, labels: seq<int>, ordered: seq<Cluster.Cluster<P>>,
                          live: seq<Cluster.Cluster<P>>, order: seq<nat>, centroidOf: seq<P> -> P,
                          cs: seq<Cluster.Cluster<P>>, centre: Option<P>)
    requires |labels| == |points| && Grouped(points, labels, ordered)
    requires live == LiveClusters(ordered)
    requires order == Ranking.SortOrder(SizesOf(live))
    requires forall i :: 0 <= i < |order| ==> order[i] < |live|
    requires cs == Pick(live, order)
    requires centre == if cs == [] then None else Some(centroidOf(cs[0].points))
    ensures ClusteringResult(points, labels, centroidOf, cs, centre)
    ensures forall i :: 0 <= i < |cs| ==> cs[i] in ordered
  {
    PickedFromGrouped(points, labels, ordered, live, order, cs);
    RankedContents(points, labels, ordered, order, cs);
    PickedDistinct(ordered, order, cs);
  }

  /** The filter keeps every grouped cluster, so the picked clusters are grouped clusters in the sort order of the label sizes. */
  lemma PickedFromGrouped<P>(points: seq<P>, labels: seq<int>, ordered: seq<Cluster.Cluster<P>>,
                             live: seq<Cluster.Cluster<P>>, order: seq<nat>, cs: seq<Cluster.Cluster<P>>)
    requires |labels| == |points| && Grouped(points, labels, ordered)
    requires live == LiveClusters(ordered)
    requires order == Ranking.SortOrder(SizesOf(live))
    requires forall i :: 0 <= i < |order| ==> order[i] < |live|
    requires cs == Pick(live, order)
    ensures order == Ranking.SortOrder(GroupSizes(labels))
    ensures |cs| == |order|
    ensures forall i :: 0 <= i < |cs| ==> order[i] < |ordered| && cs[i] == ordered[order[i]] && cs[i] in ordered
  {
    GroupedSizes(points, labels, ordered);
    assert live == ordered;
    assert SizesOf(live) == GroupSizes(labels);
    forall i | 0 <= i < |cs| ensures order[i] < |ordered| && cs[i] == ordered[order[i]] && cs[i] in ordered {
      assert cs[i] == live[order[i]];
    }
  }

  /** The clusters of `live` taken in the given order. */
  function Pick<P>(live: seq<Cluster.Cluster<P>>, order: seq<nat>): (cs: seq<Cluster.Cluster<P>>)
    requires forall i :: 0 <= i < |order| ==> order[i] < |live|
    ensures |cs| == |order|
    ensures forall i :: 0 <= i < |cs| ==> cs[i] == live[order[i]]
  {
    seq(|order|, i requires 0 <= i < |order| => live[order[i]])
  }

  /** The sort order of the grouped clusters covers each of them, and none is filtered out. */
  lemma RankOrderBounds<P>(points: seq<P>, labels: seq<int>, ordered: seq<Cluster.Cluster<P>>)
    requires |labels| == |points| && Grouped(points, labels, ordered)
    ensures var live := LiveClusters(ordered);
      var order := Ranking.SortOrder(SizesOf(live));
      && live == ordered && |order| == |live|
      && forall i :: 0 <= i < |order| ==> order[i] < |live|
  {
    GroupedSizes(points, labels, ordered);
  }

  /**
   * The state of the grouping loop after the first `n` labels: the dict
   * maps exactly the labels met so far, in first-encounter order, to
   * distinct clusters holding the points of those labels.
   */
  ghost predicate GroupState<P>(points: seq<P>, labels: seq<int>, n: nat,
                                clusters: map<int, Cluster.Cluster<P>>, keys: seq<int>)
    requires |labels| == |points| && n <= |labels|
    reads clusters.Values
  {
    && keys == FirstEncounter(labels[..n])
    && (forall k :: k in clusters <==> k in keys)
    && (forall k1, k2 :: k1 in clusters && k2 in clusters && k1 != k2 ==> clusters[k1] != clusters[k2])
    && (forall k :: k in clusters ==> clusters[k].Valid() && clusters[k].border == 2)
    && (forall k :: k in clusters ==> clusters[k].points == Members(points[..n], labels[..n], k))
  }

  /** Along the returned clusters the number of points never increases. */
  lemma ClustersDescending<P>(points: seq<P>, labels: seq<int>, centroidOf: seq<P> -> P,
                              cs: seq<Cluster.Cluster<P>>, centre: Option<P>, i: nat, j: nat)
    requires |labels| == |points| && ClusteringResult(points, labels, centroidOf, cs, centre)
    requires i < j < |cs|
    ensures |cs[i].points| >= |cs[j].points|
  {
    MembersAtPositions(points, labels, RankedKeys(labels)[i]);
    MembersAtPositions(points, labels, RankedKeys(labels)[j]);
    RankedKeysDescending(labels, i, j);
  }

  /**
   * Of two returned clusters of equal size, the earlier one's label was met
   * first: it occurs before every point of the later cluster.
   */
  lemma ClusterTiesKeepEncounterOrder<P>(points: seq<P>, labels: seq<int>, centroidOf: seq<P> -> P,
                                         cs: seq<Cluster.Cluster<P>>, centre: Option<P>, i: nat, j: nat, p: nat)
    requires |labels| == |points| && ClusteringResult(points, labels, centroidOf, cs, centre)
    requires i < j < |cs| && |cs[i].points| == |cs[j].points|
    requires p < |labels| && labels[p] == RankedKeys(labels)[j]
    ensures RankedKeys(labels)[i] in labels[..p]
  {
    MembersAtPositions(points, labels, RankedKeys(labels)[i]);
    MembersAtPositions(points, labels, RankedKeys(labels)[j]);
    RankedTiesKeepEncounterOrder(labels, i, j, p);
  }

  class Canny {
    const cannyThreshold: int := 50
    var theta: int
    const thetaModifier: int := 5
    var lastFrameCount: Option<int>
    var lastTimeCount: real
    const lineMax: int := 100

    /** The controller's start-up state; `now` is the clock reading at construction. */
    constructor (now: real)
      ensures cannyThreshold == 50 && lineMax == 100
      ensures theta == 150 && thetaModifier == 5
      ensures lastFrameCount == None && lastTimeCount == now
    {
      theta := 150;
      lastFrameCount := None;
      lastTimeCount := now;
    }

    /**
     * One step of the controller for a frame with `lines` detected lines,
     * observed at time `now`. The bookkeeping is updated whether or not
     * TooManyLines is raised.
     */
    method CalculateTheta(lines: int, now: real) returns (status: Status)
      requires lines > 0
      modifies this
      ensures theta == NextTheta(old(theta), thetaModifier, old(lastFrameCount), old(lastTimeCount), lines, now)
      ensures lastFrameCount == Some(lines) && lastTimeCount == now
      ensures status == TooManyLines <==> lineMax < lines
    {
      var modifier: real;
      if lastFrameCount.Some? {
        modifier := (lastFrameCount.value as real / lines as real) * 2.0;
        if modifier <= 0.0 {
          modifier := 1.0;
        }
      } else {
        modifier := 1.0;
      }
      assert modifier == Modifier(lastFrameCount, lines);

      var timestamp := now;

      if timestamp - lastTimeCount > FrameBudget {
        theta := theta + TruncToZero(thetaModifier as real * 0.5);
      } else if lines < 10 && theta > thetaModifier {
        theta := theta - Step(thetaModifier, modifier);
      } else if lines > 50 {
        theta := theta + Step(thetaModifier, modifier);
      }

      lastFrameCount := Some(lines);
      lastTimeCount := timestamp;

      status := if lineMax < lines then TooManyLines else Adapted;
    }

    /**
     * The line-retention part of processing a frame: `hough` is the line
     * detector's output (None when it found no line), `build` the Line
     * constructor (None when it rejects an entry). Returns the list that
     * is handed on to clustering.
     */
    method ProcessFrameLines<R, L>(hough: Option<seq<R>>, build: R -> Option<L>, now: real) returns (kept: seq<L>)
      requires hough.Some? ==> |hough.value| > 0
      modifies this
      ensures hough.None? ==>
        theta == old(theta) && lastFrameCount == old(lastFrameCount) && lastTimeCount == old(lastTimeCount)
      ensures hough.Some? ==>
        && theta == NextTheta(old(theta), thetaModifier, old(lastFrameCount), old(lastTimeCount), |hough.value|, now)
        && lastFrameCount == Some(|hough.value|) && lastTimeCount == now
      ensures kept == LinesForClustering(hough, build, lineMax)
    {
      kept := [];
      if hough.Some? {
        var raw := hough.value;
        var status := CalculateTheta(|raw|, now);
        if status == Adapted {
          var i := 0;
          while i < |raw|
            invariant 0 <= i <= |raw|
            invariant kept == Retained(build, raw[..i])
          {
            assert raw[..i + 1][..i] == raw[..i];
            match build(raw[i]) {
              case Some(line) => kept := kept + [line];
              case None =>
            }
            i := i + 1;
          }
          assert raw[..i] == raw;
        }
      }
    }

    /**
     * One frame: adapt theta and keep the lines that build, then cluster
     * their intersection points. `intersect` stands for the geometry
     * library's self-intersection of the line collection, taken as a list
     * of points, `dbscan` for the density-based
     * labelling (one label per point) and `centroidOf` for the centroid of
     * a cluster's points.
     */
    method ProcessFrame<R, L, P>(hough: Option<seq<R>>, build: R -> Option<L>,
                                 intersect: seq<L> -> seq<P>, dbscan: seq<P> -> seq<int>,
                                 centroidOf: seq<P> -> P, now: real)
      returns (cs: seq<Cluster.Cluster<P>>, centre: Option<P>)
      requires hough.Some? ==> |hough.value| > 0
      requires var pts := intersect(LinesForClustering(hough, build, lineMax));
        pts != [] ==> |dbscan(pts)| == |pts|
      modifies this
      ensures hough.None? ==>
        theta == old(theta) && lastFrameCount == old(lastFrameCount) && lastTimeCount == old(lastTimeCount)
      ensures hough.Some? ==>
        && theta == NextTheta(old(theta), thetaModifier, old(lastFrameCount), old(lastTimeCount), |hough.value|, now)
        && lastFrameCount == Some(|hough.value|) && lastTimeCount == now
      ensures var pts := intersect(LinesForClustering(hough, build, lineMax));
        ClusteringResult(pts, FrameLabels(dbscan, pts), centroidOf, cs, centre)
      ensures hough.Some? && lineMax < |hough.value| && intersect([]) == [] ==> cs == [] && centre == None
      ensures forall i :: 0 <= i < |cs| ==> fresh(cs[i])
    {
      var lines := ProcessFrameLines(hough, build, now);
      var points := intersect(lines);
      var labels := FrameLabels(dbscan, points);
      cs, centre := Clustering(points, labels, centroidOf);
    }

    /**
     * The loop of the clustering step: a cluster is created for each label
     * when it is first met, and every non-noise point is added to the
     * cluster of its label. Returns the clusters in creation order.
     */
    static method GroupByLabel<P>(points: seq<P>, labels: seq<int>) returns (ordered: seq<Cluster.Cluster<P>>)
      requires |labels| == |points|
      ensures Grouped(points, labels, ordered)
      ensures forall i :: 0 <= i < |ordered| ==> fresh(ordered[i])
    {
      var clusters: map<int, Cluster.Cluster<P>> := map[];
      var keys: seq<int> := [];
      var idx := 0;
      while idx < |labels|
        invariant 0 <= idx <= |labels|
        invariant GroupState(points, labels, idx, clusters, keys)
        invariant forall c :: c in clusters.Values ==> fresh(c)
      {
        clusters, keys := AssignPoint(points, labels, idx, clusters, keys);
        idx := idx + 1;
      }
      assert labels[..idx] == labels && points[..idx] == points;
      ordered := CollectClusters(points, labels, clusters, keys);
      forall i | 0 <= i < |ordered| ensures fresh(ordered[i]) {
        assert ordered[i] in clusters.Values;
      }
    }

    /**
     * One pass of the grouping loop: unless its label is noise, the point
     * at `idx` is added to its label's cluster, which is created when the
     * label is first met.
     */
    static method AssignPoint<P>(points: seq<P>, labels: seq<int>, idx: nat,
                                 clusters: map<int, Cluster.Cluster<P>>, keys: seq<int>)
      returns (clusters': map<int, Cluster.Cluster<P>>, keys': seq<int>)
      requires |labels| == |points| && idx < |labels|
      requires GroupState(points, labels, idx, clusters, keys)
      modifies clusters.Values
      ensures GroupState(points, labels, idx + 1, clusters', keys')
      ensures forall k :: k in clusters ==> k in clusters' && clusters'[k] == clusters[k]
      ensures forall c :: c in clusters'.Values ==> c in clusters.Values || fresh(c)
    {
      assert labels[..idx + 1][..idx] == labels[..idx];
      clusters', keys' := clusters, keys;
      var kl := labels[idx];
      if kl != Noise {
        if kl !in clusters' {
          MembersOfAbsent(points[..idx], labels[..idx], kl);
          var c := new Cluster.Cluster<P>();
          clusters' := clusters'[kl := c];
          keys' := keys' + [kl];
        }
        var target := clusters'[kl];
        label before:
        target.Add(points[idx]);
        forall k | k in clusters'
          ensures clusters'[k].Valid() && clusters'[k].border == 2
          ensures clusters'[k].points == Members(points[..idx + 1], labels[..idx + 1], k)
        {
          MembersStep(points, labels, idx, k);
          if k != kl {
            assert clusters'[k] != target;
            assert clusters'[k].points == old@before(clusters'[k].points);
            assert clusters'[k].csize == old@before(clusters'[k].csize);
          }
        }
      } else {
        forall k | k in clusters'
          ensures clusters'[k].points == Members(points[..idx + 1], labels[..idx + 1], k)
        {
          MembersStep(points, labels, idx, k);
        }
      }
    }

    /** `[c for _, c in clusters.items()]`: the dict's clusters in key insertion order. */
    static method CollectClusters<P>(points: seq<P>, labels: seq<int>,
                                     clusters: map<int, Cluster.Cluster<P>>, keys: seq<int>)
      returns (ordered: seq<Cluster.Cluster<P>>)
      requires |labels| == |points|
      requires keys == FirstEncounter(labels)
      requires forall k :: k in clusters <==> k in keys
      requires forall k1, k2 :: k1 in clusters && k2 in clusters && k1 != k2 ==> clusters[k1] != clusters[k2]
      requires forall k :: k in clusters ==> clusters[k].Valid() && clusters[k].border == 2
      requires forall k :: k in clusters ==> clusters[k].points == Members(points, labels, k)
      ensures Grouped(points, labels, ordered)
      ensures |ordered| == |keys|
      ensures forall i :: 0 <= i < |ordered| ==> keys[i] in clusters && ordered[i] == clusters[keys[i]]
    {
      forall i | 0 <= i < |keys| ensures keys[i] in clusters {
        assert keys[i] in keys;
      }
      ordered := seq(|keys|, i requires 0 <= i < |keys| && keys[i] in clusters => clusters[keys[i]]);
      assert forall i :: 0 <= i < |ordered| ==> ordered[i] == clusters[keys[i]];
    }

    /**
     * Groups the points by their density-based labels, drops dead
     * clusters, ranks the rest by size (stable, largest first) and takes
     * the centroid of the first. `labels` holds one label per point.
     */
    static method Clustering<P>(points: seq<P>, labels: seq<int>, centroidOf: seq<P> -> P)
      returns (cs: seq<Cluster.Cluster<P>>, centre: Option<P>)
      requires |labels| == |points|
      ensures ClusteringResult(points, labels, centroidOf, cs, centre)
      ensures forall i :: 0 <= i < |cs| ==> fresh(cs[i])
    {
      cs, centre := [], None;
      if |points| == 0 {
        assert labels == [];
        assert |FirstEncounter(labels)| == 0;
        return;
      }

      var ordered := GroupByLabel(points, labels);
      if |ordered| > 0 {
        cs, centre := RankClusters(points, labels, ordered, centroidOf);
      } else {
        assert |FirstEncounter(labels)| == 0;
      }
    }

    /**
     * The tail of the clustering step: drops dead clusters, sorts the rest
     * by `cluster_size()` (stable, largest first) and takes the centroid of
     * the points of the first.
     */
    static method RankClusters<P>(ghost points: seq<P>, ghost labels: seq<int>,
                                  ordered: seq<Cluster.Cluster<P>>, centroidOf: seq<P> -> P)
      returns (cs: seq<Cluster.Cluster<P>>, centre: Option<P>)
      requires |labels| == |points|
      requires Grouped(points, labels, ordered) && |ordered| > 0
      ensures ClusteringResult(points, labels, centroidOf, cs, centre)
      ensures forall i :: 0 <= i < |cs| ==> cs[i] in ordered
    {
      var live := LiveClusters(ordered);
      var order := Ranking.SortOrder(SizesOf(live));
      RankOrderBounds(points, labels, ordered);
      cs := Pick(live, order);
      centre := Some(centroidOf(cs[0].points));
      RankedGrouping(points, labels, ordered, live, order, centroidOf, cs, centre);
    }
  }
}
