/**
 * The order `sorted(clusters, key=cluster_size, reverse=True)` produces:
 * Python's sort is stable even when reversed, so clusters of equal size
 * keep their original relative order. The order is given as a sequence of
 * positions into the original list.
 */
module Ranking {

  /** Position `a` comes before position `b`: a larger size first, equal sizes by position. */
  predicate Before(sizes: seq<int>, a: nat, b: nat)
    requires a < |sizes| && b < |sizes|
  {
    sizes[a] > sizes[b] || (sizes[a] == sizes[b] && a < b)
  }

  /** Every entry is a valid position and the entries are strictly ordered by `Before`. */
  predicate Ranked(sizes: seq<int>, r: seq<nat>)
  {
    && (forall i :: 0 <= i < |r| ==> r[i] < |sizes|)
    && (forall i, j :: 0 <= i < j < |r| ==> Before(sizes, r[i], r[j]))
  }

  /** Inserts position `x` into a ranked order at the place `Before` gives it. */
  function Insert(sizes: seq<int>, x: nat, r: seq<nat>): (r': seq<nat>)
    requires x < |sizes| && x !in r && Ranked(sizes, r)
    ensures Ranked(sizes, r')
    ensures |r'| == |r| + 1
    ensures forall y :: y in r' <==> y == x || y in r
  {
    if r == [] then [x]
    else if Before(sizes, x, r[0]) then [x] + r
    else
      var t := Insert(sizes, x, r[1..]);
      assert forall y :: y in t ==> Before(sizes, r[0], y) by {
        forall y | y in t ensures Before(sizes, r[0], y) {
          if y != x {
            var j :| 0 <= j < |r[1..]| && r[1..][j] == y;
            assert r[j + 1] == y;
          }
        }
      }
      [r[0]] + t
  }

  /** The ranked order of the first `n` positions, built by inserting them one at a time. */
  function RankPrefix(sizes: seq<int>, n: nat): (r: seq<nat>)
    requires n <= |sizes|
    ensures Ranked(sizes, r)
    ensures |r| == n
    ensures forall y :: y in r <==> 0 <= y < n
  {
    if n == 0 then [] else Insert(sizes, n - 1, RankPrefix(sizes, n - 1))
  }

  /**
   * The stable descending order of all positions: a permutation of
   * 0 .. |sizes|-1 along which sizes never increase and equal sizes keep
   * their original order.
   */
  function SortOrder(sizes: seq<int>): (r: seq<nat>)
    ensures |r| == |sizes|
    ensures forall y :: y in r <==> 0 <= y < |sizes|
    ensures forall i :: 0 <= i < |r| ==> r[i] < |sizes|
    ensures forall i, j :: 0 <= i < j < |r| ==> r[i] < |sizes| && r[j] < |sizes| && sizes[r[i]] >= sizes[r[j]]
    ensures forall i, j :: 0 <= i < j < |r| && r[i] < |sizes| && r[j] < |sizes| && sizes[r[i]] == sizes[r[j]] ==> r[i] < r[j]
  {
    RankPrefix(sizes, |sizes|)
  }

  /**
   * The first position of the order has a maximal size, and among the
   * positions of that size it is the earliest.
   */
  lemma FirstIsEarliestLargest(sizes: seq<int>)
    requires |sizes| > 0
    ensures var r := SortOrder(sizes);
      && |r| > 0 && r[0] < |sizes|
      && (forall y :: 0 <= y < |sizes| ==> sizes[y] <= sizes[r[0]])
      && (forall y :: 0 <= y < |sizes| && sizes[y] == sizes[r[0]] ==> r[0] <= y)
  {
    var r := SortOrder(sizes);
    assert r[0] in r;
    forall y | 0 <= y < |sizes|
      ensures sizes[y] <= sizes[r[0]]
      ensures sizes[y] == sizes[r[0]] ==> r[0] <= y
    {
      assert y in r;
      var j :| 0 <= j < |r| && r[j] == y;
      if j > 0 {
        assert Before(sizes, r[0], r[j]);
      }
    }
  }

  /**
   * A ranked order is determined by the positions it holds: any sort that
   * is stable and descending by size yields exactly `SortOrder`.
   */
  lemma {:induction false} RankedIsUnique(sizes: seq<int>, r1: seq<nat>, r2: seq<nat>)
    requires Ranked(sizes, r1) && Ranked(sizes, r2)
    requires forall y :: y in r1 <==> y in r2
    ensures r1 == r2
  {
    assert r1 == [] <==> r2 == [] by {
      if r1 != [] { assert r1[0] in r2; }
      if r2 != [] { assert r2[0] in r1; }
    }
    if r1 != [] {
      assert r1[0] in r2 && r2[0] in r1;
      assert r1[0] == r2[0];
      var t1, t2 := r1[1..], r2[1..];
      assert Ranked(sizes, t1) by {
        forall i, j | 0 <= i < j < |t1| ensures Before(sizes, t1[i], t1[j]) {
          assert t1[i] == r1[i + 1] && t1[j] == r1[j + 1];
        }
      }
      assert Ranked(sizes, t2) by {
        forall i, j | 0 <= i < j < |t2| ensures Before(sizes, t2[i], t2[j]) {
          assert t2[i] == r2[i + 1] && t2[j] == r2[j + 1];
        }
      }
      forall y ensures y in t1 <==> y in t2 {
        if y in t1 {
          var j :| 0 <= j < |t1| && t1[j] == y;
          assert Before(sizes, r1[0], r1[j + 1]);
          assert y in r2;
          assert y != r2[0];
          assert r2 == [r2[0]] + t2;
        }
        if y in t2 {
          var j :| 0 <= j < |t2| && t2[j] == y;
          assert Before(sizes, r2[0], r2[j + 1]);
          assert y in r1;
          assert y != r1[0];
          assert r1 == [r1[0]] + t1;
        }
      }
      RankedIsUnique(sizes, t1, t2);
      assert r1 == [r1[0]] + t1 && r2 == [r2[0]] + t2;
    }
  }
}
