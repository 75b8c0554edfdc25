/**
 * A cluster of intersection points found in one frame: a growable point
 * list with a running count, and the rounded extent helpers used to draw
 * its bounding rectangle.
 */
module Cluster {
  import opened PyNum

  /** Python's `min` over a non-empty list. */
  function SeqMin(s: seq<real>): (m: real)
    requires |s| > 0
    ensures m in s
    ensures forall e :: e in s ==> m <= e
  {
    if |s| == 1 then s[0]
    else
      var t := SeqMin(s[1..]);
      assert s == [s[0]] + s[1..];
      if s[0] <= t then s[0] else t
  }

  /** Python's `max` over a non-empty list. */
  function SeqMax(s: seq<real>): (m: real)
    requires |s| > 0
    ensures m in s
    ensures forall e :: e in s ==> e <= m
  {
    if |s| == 1 then s[0]
    else
      var t := SeqMax(s[1..]);
      assert s == [s[0]] + s[1..];
      if s[0] >= t then s[0] else t
  }

  /** A value with no fractional part, as the coordinates of a pixel grid. */
  predicate Integral(x: real)
  {
    x == x.Floor as real
  }

  class Cluster<P> {
    var points: seq<P>
    var csize: int
    const border: int

    /** The running count always equals the number of points. */
    ghost predicate Valid()
      reads this
    {
      csize == |points|
    }

    constructor ()
      ensures points == [] && csize == 0 && border == 2
      ensures Valid()
    {
      points := [];
      csize := 0;
      border := 2;
    }

    /** Appends `p` and counts it; earlier points and the border stay as they were. */
    method Add(p: P)
      requires Valid()
      modifies this
      ensures points == old(points) + [p]
      ensures csize == old(csize) + 1
      ensures Valid()
    {
      points := points + [p];
      csize := csize + 1;
    }

    /** The number of points in the cluster. */
    function ClusterSize(): (n: int)
      reads this
      requires Valid()
      ensures n == |points|
    {
      csize
    }

    /**
     * Whether the cluster has no points. The clustering step asks every
     * cluster this; the cluster class of the source does not define it,
     * so it is taken to mean an empty count.
     */
    function IsDead(): (dead: bool)
      reads this
      requires Valid()
      ensures dead <==> points == []
    {
      csize == 0
    }

    /**
     * Lower edge of the drawn extent: the smallest coordinate shifted down
     * by half the border, rounded half to even.
     */
    function Min(lst: seq<real>): (r: int)
      requires |lst| > 0
      ensures forall e :: e in lst ==> r as real <= e - border as real / 2.0 + 0.5
      ensures exists e :: e in lst && e - border as real / 2.0 - 0.5 <= r as real
      ensures var x := SeqMin(lst) - border as real / 2.0;
        (x - r as real == 0.5 || r as real - x == 0.5) ==> r % 2 == 0
    {
      RoundHalfEven(SeqMin(lst) - border as real / 2.0)
    }

    /**
     * Upper edge of the drawn extent, as written: the largest coordinate
     * shifted DOWN by half the border, rounded half to even.
     */
    function Max(lst: seq<real>): (r: int)
      requires |lst| > 0
      ensures forall e :: e in lst ==> e - border as real / 2.0 - 0.5 <= r as real
      ensures exists e :: e in lst && r as real <= e - border as real / 2.0 + 0.5
      ensures var x := SeqMax(lst) - border as real / 2.0;
        (x - r as real == 0.5 || r as real - x == 0.5) ==> r % 2 == 0
    {
      RoundHalfEven(SeqMax(lst) - border as real / 2.0)
    }

    /**
     * Upper edge of the extent as a border-inflated box needs it: the
     * largest coordinate shifted UP by half the border.
     */
    function InflatedMax(lst: seq<real>): (r: int)
      requires |lst| > 0
      ensures forall e :: e in lst ==> e + border as real / 2.0 - 0.5 <= r as real
      ensures exists e :: e in lst && r as real <= e + border as real / 2.0 + 0.5
      ensures var x := SeqMax(lst) + border as real / 2.0;
        (x - r as real == 0.5 || r as real - x == 0.5) ==> r % 2 == 0
    {
      RoundHalfEven(SeqMax(lst) + border as real / 2.0)
    }
  }

  /** Both edges apply the same shift to the minimum and the maximum, so they never cross. */
  lemma MinAtMostMax<P>(c: Cluster<P>, lst: seq<real>)
    requires |lst| > 0
    ensures c.Min(lst) <= c.Max(lst)
  {
    var b := c.border as real / 2.0;
    RoundMonotone(SeqMin(lst) - b, SeqMax(lst) - b);
  }

  /** On integral coordinates with the default border the lower edge is exactly `min(lst) - 1`. */
  lemma MinOnIntegralCoordinates<P>(c: Cluster<P>, lst: seq<real>)
    requires |lst| > 0 && c.border == 2
    requires forall e :: e in lst ==> Integral(e)
    ensures c.Min(lst) as real == SeqMin(lst) - 1.0
  {
    var m := SeqMin(lst);
    assert Integral(m);
    RoundOfInteger(m.Floor - 1);
    assert m - 1.0 == (m.Floor - 1) as real;
  }

  /** On integral coordinates with the default border the upper edge is exactly `max(lst) - 1`. */
  lemma MaxOnIntegralCoordinates<P>(c: Cluster<P>, lst: seq<real>)
    requires |lst| > 0 && c.border == 2
    requires forall e :: e in lst ==> Integral(e)
    ensures c.Max(lst) as real == SeqMax(lst) - 1.0
  {
    var m := SeqMax(lst);
    assert Integral(m);
    RoundOfInteger(m.Floor - 1);
    assert m - 1.0 == (m.Floor - 1) as real;
  }

  /**
   * As written, the upper edge lies strictly below the largest coordinate
   * whenever the border is the default one: the extreme point of every
   * cluster falls outside its own rectangle.
   */
  lemma MaxExcludesLargest<P>(c: Cluster<P>, lst: seq<real>)
    requires |lst| > 0 && c.border == 2
    ensures (c.Max(lst) as real) < SeqMax(lst)
  {
  }

  /** With the border added on both sides, every coordinate lies within [Min, InflatedMax]. */
  lemma InflatedExtentCovers<P>(c: Cluster<P>, lst: seq<real>)
    requires |lst| > 0 && c.border >= 1
    ensures forall e :: e in lst ==> c.Min(lst) as real <= e <= c.InflatedMax(lst) as real
  {
  }
}
