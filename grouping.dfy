/**
 * How the clustering step turns the density-based labels of the
 * intersection points into clusters: one cluster per distinct non-noise
 * label, created when the label is first met, holding the points of that
 * label in order; then the clusters ranked by size.
 */
module Grouping {
  import Ranking

  /** The label the density-based clustering gives to noise points. */
  const Noise: int := -1

  predicate Distinct(s: seq<int>)
  {
    forall i, j :: 0 <= i < j < |s| ==> s[i] != s[j]
  }

  /** The distinct non-noise labels of `ls`, in the order they are first met. */
  function FirstEncounter(ls: seq<int>): (keys: seq<int>)
    ensures forall k :: k in keys <==> k != Noise && k in ls
    ensures Distinct(keys)
  {
    if ls == [] then []
    else
      var n := |ls| - 1;
      var keys := FirstEncounter(ls[..n]);
      assert ls == ls[..n] + [ls[n]];
      if ls[n] == Noise || ls[n] in keys then keys else keys + [ls[n]]
  }

  /** The positions of `ls` that carry label `k`, in increasing order. */
  function MemberIdx(ls: seq<int>, k: int): (ix: seq<nat>)
    ensures forall p :: p in ix <==> 0 <= p < |ls| && ls[p] == k
    ensures forall a, b :: 0 <= a < b < |ix| ==> ix[a] < ix[b]
  {
    if ls == [] then []
    else
      var n := |ls| - 1;
      var prev := MemberIdx(ls[..n], k);
      assert forall a :: 0 <= a < |prev| ==> prev[a] in prev;
      prev + (if ls[n] == k then [n] else [])
  }

  /** The points whose label is `k`, in the order the labels list them. */
  function Members<P>(ps: seq<P>, ls: seq<int>, k: int): (m: seq<P>)
    requires |ps| == |ls|
    ensures |m| <= |ps|
  {
    if ls == [] then []
    else
      var n := |ls| - 1;
      Members(ps[..n], ls[..n], k) + (if ls[n] == k then [ps[n]] else [])
  }

  /**
   * The members of label `k` are the points at the positions carrying
   * label `k`, in increasing position order.
   */
  lemma {:induction false} MembersAtPositions<P>(ps: seq<P>, ls: seq<int>, k: int)
    requires |ps| == |ls|
    ensures |Members(ps, ls, k)| == |MemberIdx(ls, k)|
    ensures forall j :: 0 <= j < |MemberIdx(ls, k)| ==>
      MemberIdx(ls, k)[j] < |ps| && Members(ps, ls, k)[j] == ps[MemberIdx(ls, k)[j]]
  {
    if ls != [] {
      var n := |ls| - 1;
      MembersAtPositions(ps[..n], ls[..n], k);
      var ix := MemberIdx(ls[..n], k);
      forall j | 0 <= j < |ix| ensures ix[j] < n && ps[..n][ix[j]] == ps[ix[j]] {
        assert ix[j] in ix;
      }
    }
  }

  /** A label that does not occur has no members. */
  lemma {:induction false} MembersOfAbsent<P>(ps: seq<P>, ls: seq<int>, k: int)
    requires |ps| == |ls| && k !in ls
    ensures Members(ps, ls, k) == []
  {
    if ls != [] {
      var n := |ls| - 1;
      assert ls[n] in ls;
      MembersOfAbsent(ps[..n], ls[..n], k);
    }
  }

  /** Extending the labelled prefix by one position adds that point to its own label only. */
  lemma MembersStep<P>(ps: seq<P>, ls: seq<int>, n: nat, k: int)
    requires |ps| == |ls| && n < |ls|
    ensures Members(ps[..n + 1], ls[..n + 1], k) == Members(ps[..n], ls[..n], k) + (if ls[n] == k then [ps[n]] else [])
  {
    assert ps[..n + 1][..n] == ps[..n] && ls[..n + 1][..n] == ls[..n];
  }

  /** The number of points of each first-encountered label; none is zero. */
  function GroupSizes(ls: seq<int>): (sizes: seq<int>)
    ensures |sizes| == |FirstEncounter(ls)|
    ensures forall i :: 0 <= i < |sizes| ==> sizes[i] == |MemberIdx(ls, FirstEncounter(ls)[i])|
    ensures forall i :: 0 <= i < |sizes| ==> sizes[i] >= 1
  {
    var keys := FirstEncounter(ls);
    assert forall i :: 0 <= i < |keys| ==> |MemberIdx(ls, keys[i])| >= 1 by {
      forall i | 0 <= i < |keys| ensures |MemberIdx(ls, keys[i])| >= 1 {
        assert keys[i] in ls;
        var p :| 0 <= p < |ls| && ls[p] == keys[i];
        assert p in MemberIdx(ls, keys[i]);
      }
    }
    seq(|keys|, i requires 0 <= i < |keys| => |MemberIdx(ls, keys[i])|)
  }

  /** There is no key at all exactly when every label is noise. */
  lemma NoKeyIffAllNoise(ls: seq<int>)
    ensures FirstEncounter(ls) == [] <==> forall p :: 0 <= p < |ls| ==> ls[p] == Noise
  {
    var keys := FirstEncounter(ls);
    if keys != [] {
      assert keys[0] in ls;
      var p :| 0 <= p < |ls| && ls[p] == keys[0];
      assert ls[p] != Noise;
    } else {
      forall p | 0 <= p < |ls| ensures ls[p] == Noise {
        assert ls[p] in ls && ls[p] !in keys;
      }
    }
  }

  /** The first-encountered labels reordered by the stable descending sort on their sizes. */
  function RankedKeys(ls: seq<int>): (rk: seq<int>)
    ensures |rk| == |FirstEncounter(ls)|
  {
    var keys := FirstEncounter(ls);
    var order := Ranking.SortOrder(GroupSizes(ls));
    seq(|order|, i requires 0 <= i < |order| => keys[order[i]])
  }

  /** The `i`-th ranked label is the first-encountered label at the `i`-th position of the sort order. */
  lemma RankedKeysAt(ls: seq<int>, i: nat)
    requires i < |RankedKeys(ls)|
    ensures var order := Ranking.SortOrder(GroupSizes(ls));
      i < |order| && order[i] < |FirstEncounter(ls)| && RankedKeys(ls)[i] == FirstEncounter(ls)[order[i]]
  {
  }

  /**
   * Labels come in key order: every occurrence of a later key is preceded
   * by an occurrence of each earlier key.
   */
  lemma {:induction false} FirstEncounterOrder(ls: seq<int>, i: nat, j: nat, p: nat)
    requires i < j < |FirstEncounter(ls)|
    requires p < |ls| && ls[p] == FirstEncounter(ls)[j]
    ensures FirstEncounter(ls)[i] in ls[..p]
  {
    var n := |ls| - 1;
    var keys, prev := FirstEncounter(ls), FirstEncounter(ls[..n]);
    assert keys[i] == prev[i];
    if p < n {
      assert ls[..n][p] == keys[j];
      assert keys[j] in prev;
      assert j < |prev| && keys[j] == prev[j];
      FirstEncounterOrder(ls[..n], i, j, p);
      assert ls[..n][..p] == ls[..p];
    } else {
      assert keys[i] in prev;
      assert ls[..p] == ls[..n];
    }
  }

  /**
   * Each non-noise point is assigned to exactly one cluster, once: the
   * cluster of its own label, which is one of the keys.
   */
  lemma AssignedOnce(ls: seq<int>, p: nat)
    requires p < |ls| && ls[p] != Noise
    ensures ls[p] in FirstEncounter(ls)
    ensures forall k :: p in MemberIdx(ls, k) <==> k == ls[p]
    ensures forall a, b :: 0 <= a < b < |MemberIdx(ls, ls[p])| ==> MemberIdx(ls, ls[p])[a] != MemberIdx(ls, ls[p])[b]
  {
  }

  /**
   * The ranked labels are exactly the distinct non-noise labels, each once
   * (no cluster is lost by the dead filter or the sort).
   */
  lemma RankedKeysCover(ls: seq<int>)
    ensures var rk := RankedKeys(ls);
      (forall k :: k in rk <==> k != Noise && k in ls) && Distinct(rk)
  {
    var keys, sizes := FirstEncounter(ls), GroupSizes(ls);
    var order := Ranking.SortOrder(sizes);
    var rk := RankedKeys(ls);
    forall k | k in keys ensures k in rk {
      var q :| 0 <= q < |keys| && keys[q] == k;
      assert q in order;
      var i :| 0 <= i < |order| && order[i] == q;
      assert rk[i] == k;
    }
    forall i | 0 <= i < |rk| ensures rk[i] in keys {
      assert rk[i] == keys[order[i]];
    }
    forall i, j | 0 <= i < j < |rk| ensures rk[i] != rk[j] {
      assert order[i] != order[j] by {
        assert sizes[order[i]] >= sizes[order[j]];
      }
    }
  }

  /** Along the ranked labels the number of points never increases. */
  lemma RankedKeysDescending(ls: seq<int>, i: nat, j: nat)
    requires i < j < |RankedKeys(ls)|
    ensures |MemberIdx(ls, RankedKeys(ls)[i])| >= |MemberIdx(ls, RankedKeys(ls)[j])|
  {
    var sizes := GroupSizes(ls);
    var order := Ranking.SortOrder(sizes);
    assert sizes[order[i]] >= sizes[order[j]];
  }

  /**
   * Clusters of equal size keep the order of their labels' first
   * encounter: every occurrence of the later one is preceded by an
   * occurrence of the earlier one.
   */
  lemma RankedTiesKeepEncounterOrder(ls: seq<int>, i: nat, j: nat, p: nat)
    requires i < j < |RankedKeys(ls)|
    requires |MemberIdx(ls, RankedKeys(ls)[i])| == |MemberIdx(ls, RankedKeys(ls)[j])|
    requires p < |ls| && ls[p] == RankedKeys(ls)[j]
    ensures RankedKeys(ls)[i] in ls[..p]
  {
    var keys, sizes := FirstEncounter(ls), GroupSizes(ls);
    var order := Ranking.SortOrder(sizes);
    var rk := RankedKeys(ls);
    var a, b := order[i], order[j];
    assert rk[i] == keys[a] && rk[j] == keys[b];
    assert sizes[a] == sizes[b];
    assert a < b;
    FirstEncounterOrder(ls, a, b, p);
  }

  /**
   * The first ranked label has a maximal number of points, and any other
   * label with as many points is first met after it.
   */
  lemma DominantKey(ls: seq<int>, k: int)
    requires k != Noise && k in ls
    ensures |RankedKeys(ls)| > 0
    ensures |MemberIdx(ls, k)| <= |MemberIdx(ls, RankedKeys(ls)[0])|
    ensures k != RankedKeys(ls)[0] && |MemberIdx(ls, k)| == |MemberIdx(ls, RankedKeys(ls)[0])| ==>
      forall p :: 0 <= p < |ls| && ls[p] == k ==> RankedKeys(ls)[0] in ls[..p]
  {
    var rk := RankedKeys(ls);
    RankedKeysCover(ls);
    assert k in rk;
    var j :| 0 <= j < |rk| && rk[j] == k;
    if j > 0 {
      RankedKeysDescending(ls, 0, j);
      forall p | 0 <= p < |ls| && ls[p] == k && |MemberIdx(ls, k)| == |MemberIdx(ls, rk[0])|
        ensures rk[0] in ls[..p]
      {
        RankedTiesKeepEncounterOrder(ls, 0, j, p);
      }
    }
  }

  /** There is no cluster at all exactly when every label is noise (or there are no labels). */
  lemma NoClusterIffAllNoise(ls: seq<int>)
    ensures RankedKeys(ls) == [] <==> forall p :: 0 <= p < |ls| ==> ls[p] == Noise
  {
    var rk := RankedKeys(ls);
    RankedKeysCover(ls);
    if rk != [] {
      assert rk[0] in ls;
      var p :| 0 <= p < |ls| && ls[p] == rk[0];
      assert ls[p] != Noise;
    } else {
      forall p | 0 <= p < |ls| ensures ls[p] == Noise {
        assert ls[p] !in rk;
      }
    }
  }
}
