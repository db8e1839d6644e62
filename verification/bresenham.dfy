/** Integer Bresenham line rasterisation: the points DrawLine, DrawLineLow and
    DrawLineHigh pass to the clipped pixel write, in the order they are written. */
module Bresenham {
  import opened Pixels

  function Max(a: int, b: int): int {
    if a < b then b else a
  }

  function Min(a: int, b: int): int {
    if a < b then a else b
  }

  /** The coordinate advanced by one unit per written point. Shallow lines
      (DrawLineLow) step along x, steep lines (DrawLineHigh) along y. */
  datatype Axis = Shallow | Steep

  /** The point whose major coordinate is a and whose minor coordinate is b. */
  function Place(axis: Axis, a: int, b: int): Point {
    if axis == Shallow then Point(a, b) else Point(b, a)
  }

  function Major(axis: Axis, p: Point): int {
    if axis == Shallow then p.x else p.y
  }

  function Minor(axis: Axis, p: Point): int {
    if axis == Shallow then p.y else p.x
  }

  /** The main loop: from major coordinate a up to a1 inclusive, one point per
      step; the minor coordinate b moves by `step` whenever the decision value d
      is positive, and d gains 2*db per step and loses 2*da per minor move. */
  function Walk(axis: Axis, a: int, a1: int, b: int, d: int, da: int, db: int, step: int): (r: seq<Point>)
    ensures |r| == if a <= a1 then a1 - a + 1 else 0
    decreases a1 - a + 1
  {
    if a > a1 then []
    else
      var b' := if d > 0 then b + step else b;
      var d' := (if d > 0 then d - 2 * da else d) + 2 * db;
      [Place(axis, a, b)] + Walk(axis, a + 1, a1, b', d', da, db, step)
  }

  /** The walk advances the major coordinate by one per point, starts on the
      minor coordinate b and moves it by 0 or step between consecutive points. */
  lemma {:induction false} WalkShape(axis: Axis, a: int, a1: int, b: int, d: int, da: int, db: int, step: int)
    ensures var r := Walk(axis, a, a1, b, d, da, db, step);
      && (forall i :: 0 <= i < |r| ==> Major(axis, r[i]) == a + i)
      && (|r| > 0 ==> Minor(axis, r[0]) == b)
      && (forall i :: 0 < i < |r| ==> Minor(axis, r[i]) == Minor(axis, r[i - 1]) || Minor(axis, r[i]) == Minor(axis, r[i - 1]) + step)
    decreases a1 - a + 1
  {
    if a <= a1 {
      var b' := if d > 0 then b + step else b;
      var d' := (if d > 0 then d - 2 * da else d) + 2 * db;
      var r := Walk(axis, a, a1, b, d, da, db, step);
      var tail := Walk(axis, a + 1, a1, b', d', da, db, step);
      assert r == [Place(axis, a, b)] + tail;
      WalkShape(axis, a + 1, a1, b', d', da, db, step);
      forall i | 0 < i < |r|
        ensures Major(axis, r[i]) == a + i
        ensures Minor(axis, r[i]) == Minor(axis, r[i - 1]) || Minor(axis, r[i]) == Minor(axis, r[i - 1]) + step
      {
        assert r[i] == tail[i - 1];
        if i > 1 {
          assert r[i - 1] == tail[i - 2];
        }
      }
    }
  }

  /** DrawLineLow and DrawLineHigh with the roles of the coordinates named by
      axis: the walk from (a0, b0) towards (a1, b1), the minor direction taken
      from the sign of b1 - b0 and the decision value starting at 2*db - da. */
  function Octant(axis: Axis, a0: int, b0: int, a1: int, b1: int): (r: seq<Point>)
    ensures |r| == if a0 <= a1 then a1 - a0 + 1 else 0
    ensures forall i :: 0 <= i < |r| ==> Major(axis, r[i]) == a0 + i
    ensures forall i :: 0 < i < |r| ==> Abs(Minor(axis, r[i]) - Minor(axis, r[i - 1])) <= 1
  {
    var da := a1 - a0;
    var step := if b1 - b0 < 0 then -1 else 1;
    var db := Abs(b1 - b0);
    WalkShape(axis, a0, a1, b0, 2 * db - da, da, db, step);
    Walk(axis, a0, a1, b0, 2 * db - da, da, db, step)
  }

  /** DrawLineLow: x runs from x0 to x1. */
  function LineLow(x0: int, y0: int, x1: int, y1: int): (r: seq<Point>)
    ensures |r| == if x0 <= x1 then x1 - x0 + 1 else 0
    ensures forall i :: 0 <= i < |r| ==> r[i].x == x0 + i
    ensures forall i :: 0 < i < |r| ==> Abs(r[i].y - r[i - 1].y) <= 1
  {
    Octant(Shallow, x0, y0, x1, y1)
  }

  /** DrawLineHigh: y runs from y0 to y1. */
  function LineHigh(x0: int, y0: int, x1: int, y1: int): (r: seq<Point>)
    ensures |r| == if y0 <= y1 then y1 - y0 + 1 else 0
    ensures forall i :: 0 <= i < |r| ==> r[i].y == y0 + i
    ensures forall i :: 0 < i < |r| ==> Abs(r[i].x - r[i - 1].x) <= 1
  {
    Octant(Steep, y0, x0, y1, x1)
  }

  /** Whether DrawLine takes the shallow branch. */
  predicate IsShallow(x0: int, y0: int, x1: int, y1: int) {
    Abs(y1 - y0) < Abs(x1 - x0)
  }

  /** The shallow branch of DrawLine: DrawLineLow from the endpoint with the
      smaller x. */
  function ShallowLine(x0: int, y0: int, x1: int, y1: int): (r: seq<Point>)
    ensures |r| == Abs(x1 - x0) + 1
    ensures forall i :: 0 <= i < |r| ==> r[i].x == Min(x0, x1) + i
    ensures forall i :: 0 < i < |r| ==> Abs(r[i].y - r[i - 1].y) <= 1
  {
    if x0 > x1 then LineLow(x1, y1, x0, y0) else LineLow(x0, y0, x1, y1)
  }

  /** The steep branch of DrawLine: DrawLineHigh from the endpoint with the
      smaller y. */
  function SteepLine(x0: int, y0: int, x1: int, y1: int): (r: seq<Point>)
    ensures |r| == Abs(y1 - y0) + 1
    ensures forall i :: 0 <= i < |r| ==> r[i].y == Min(y0, y1) + i
    ensures forall i :: 0 < i < |r| ==> Abs(r[i].x - r[i - 1].x) <= 1
  {
    if y0 > y1 then LineHigh(x1, y1, x0, y0) else LineHigh(x0, y0, x1, y1)
  }

  /** DrawLine: chooses the dominant axis and starts from the endpoint with the
      smaller coordinate along it. One point per unit step of the dominant axis,
      from the smaller endpoint onwards, the other coordinate moving by at most 1. */
  function Line(x0: int, y0: int, x1: int, y1: int): (r: seq<Point>)
    ensures |r| == Max(Abs(x1 - x0), Abs(y1 - y0)) + 1
    ensures IsShallow(x0, y0, x1, y1) ==> forall i :: 0 <= i < |r| ==> r[i].x == Min(x0, x1) + i
    ensures !IsShallow(x0, y0, x1, y1) ==> forall i :: 0 <= i < |r| ==> r[i].y == Min(y0, y1) + i
    ensures IsShallow(x0, y0, x1, y1) ==> forall i :: 0 < i < |r| ==> Abs(r[i].y - r[i - 1].y) <= 1
    ensures !IsShallow(x0, y0, x1, y1) ==> forall i :: 0 < i < |r| ==> Abs(r[i].x - r[i - 1].x) <= 1
  {
    if IsShallow(x0, y0, x1, y1) then ShallowLine(x0, y0, x1, y1) else SteepLine(x0, y0, x1, y1)
  }

  /** Multiplying by a positive da keeps a nonzero factor at least da away from 0. */
  lemma MulAwayFromZero(da: int, m: int)
    requires da > 0
    ensures m >= 1 ==> da * m >= da
    ensures m <= -1 ==> da * m <= -da
  {
    assert da * m == da + da * (m - 1);
    assert da * m == -da + da * (m + 1);
  }

  /** The Bresenham invariant after i steps with k minor moves: the decision
      value is 2*(i*db - k*da) + 2*db - da and the error 2*(i*db - k*da) lies
      within [-da, da]. */
  predicate Inv(i: int, k: int, d: int, da: int, db: int) {
    && 0 <= db <= da
    && 0 <= k <= i
    && d == 2 * (i * db - k * da) + 2 * db - da
    && -da <= 2 * (i * db - k * da) <= da
  }

  /** One iteration of the loop keeps the invariant. */
  lemma InvariantStep(i: int, k: int, d: int, da: int, db: int)
    requires Inv(i, k, d, da, db)
    ensures Inv(i + 1, if d > 0 then k + 1 else k, (if d > 0 then d - 2 * da else d) + 2 * db, da, db)
  {
    assert (i + 1) * db == i * db + db;
    assert (k + 1) * da == k * da + da;
  }

  /** At the last step (i = da) the invariant forces k = db. */
  lemma InvariantEnd(k: int, d: int, da: int, db: int)
    requires Inv(da, k, d, da, db)
    ensures k == db
  {
    if da > 0 {
      assert da * db - k * da == da * (db - k);
      MulAwayFromZero(da, db - k);
    }
  }

  /** The minor coordinate after k moves of one unit in the direction of step. */
  function Moved(b0: int, step: int, k: int): int {
    if step < 0 then b0 - k else b0 + k
  }

  /** The number of minor moves made by the time the walk from a reaches a1,
      k having been made already. */
  function MovesAtEnd(a: int, a1: int, k: int, d: int, da: int, db: int): int
    decreases a1 - a
  {
    if a >= a1 then k
    else MovesAtEnd(a + 1, a1, if d > 0 then k + 1 else k, (if d > 0 then d - 2 * da else d) + 2 * db, da, db)
  }

  /** The last point of the walk sits on the minor coordinate reached after
      MovesAtEnd moves. */
  lemma {:induction false} WalkLast(axis: Axis, a: int, a1: int, b0: int, k: int, d: int,
                                    da: int, db: int, step: int)
    requires a <= a1 && (step == 1 || step == -1)
    ensures var r := Walk(axis, a, a1, Moved(b0, step, k), d, da, db, step);
      Minor(axis, r[|r| - 1]) == Moved(b0, step, MovesAtEnd(a, a1, k, d, da, db))
    decreases a1 - a
  {
    var r := Walk(axis, a, a1, Moved(b0, step, k), d, da, db, step);
    if a == a1 {
      assert r == [Place(axis, a, Moved(b0, step, k))];
    } else {
      var k' := if d > 0 then k + 1 else k;
      var d' := (if d > 0 then d - 2 * da else d) + 2 * db;
      assert (if d > 0 then Moved(b0, step, k) + step else Moved(b0, step, k)) == Moved(b0, step, k');
      var tail := Walk(axis, a + 1, a1, Moved(b0, step, k'), d', da, db, step);
      assert r == [Place(axis, a, Moved(b0, step, k))] + tail;
      WalkLast(axis, a + 1, a1, b0, k', d', da, db, step);
      assert MovesAtEnd(a, a1, k, d, da, db) == MovesAtEnd(a + 1, a1, k', d', da, db);
      assert r[|r| - 1] == tail[|tail| - 1];
    }
  }

  /** Induction over the loop: from step i of da, the invariant brings the walk
      to exactly db minor moves. */
  lemma {:induction false} MovesAtEndValue(a: int, a1: int, i: int, k: int, d: int, da: int, db: int)
    requires a1 - a == da - i && i <= da
    requires Inv(i, k, d, da, db)
    ensures MovesAtEnd(a, a1, k, d, da, db) == db
    decreases a1 - a
  {
    if a >= a1 {
      InvariantEnd(k, d, da, db);
    } else {
      InvariantStep(i, k, d, da, db);
      MovesAtEndValue(a + 1, a1, i + 1, if d > 0 then k + 1 else k, (if d > 0 then d - 2 * da else d) + 2 * db, da, db);
    }
  }

  /** An octant walk whose minor extent does not exceed its major extent starts
      on (a0, b0) and ends on (a1, b1). */
  lemma OctantEnds(axis: Axis, a0: int, b0: int, a1: int, b1: int)
    requires a0 <= a1 && Abs(b1 - b0) <= a1 - a0
    ensures var r := Octant(axis, a0, b0, a1, b1);
      |r| == a1 - a0 + 1 && r[0] == Place(axis, a0, b0) && r[|r| - 1] == Place(axis, a1, b1)
  {
    var da := a1 - a0;
    var step := if b1 - b0 < 0 then -1 else 1;
    var db := Abs(b1 - b0);
    var r := Octant(axis, a0, b0, a1, b1);
    assert Inv(0, 0, 2 * db - da, da, db);
    assert Moved(b0, step, 0) == b0;
    WalkLast(axis, a0, a1, b0, 0, 2 * db - da, da, db, step);
    MovesAtEndValue(a0, a1, 0, 0, 2 * db - da, da, db);
    assert Major(axis, r[|r| - 1]) == a1;
    assert Major(axis, r[0]) == a0;
  }

  /** r runs from p to q. */
  predicate RunsFrom(r: seq<Point>, p: Point, q: Point) {
    |r| > 0 && r[0] == p && r[|r| - 1] == q
  }

  lemma ShallowEnds(x0: int, y0: int, x1: int, y1: int)
    requires IsShallow(x0, y0, x1, y1)
    ensures var r := ShallowLine(x0, y0, x1, y1);
      RunsFrom(r, Point(x0, y0), Point(x1, y1)) || RunsFrom(r, Point(x1, y1), Point(x0, y0))
  {
    if x0 > x1 {
      OctantEnds(Shallow, x1, y1, x0, y0);
    } else {
      OctantEnds(Shallow, x0, y0, x1, y1);
    }
  }

  lemma SteepEnds(x0: int, y0: int, x1: int, y1: int)
    requires !IsShallow(x0, y0, x1, y1)
    ensures var r := SteepLine(x0, y0, x1, y1);
      RunsFrom(r, Point(x0, y0), Point(x1, y1)) || RunsFrom(r, Point(x1, y1), Point(x0, y0))
  {
    if y0 > y1 {
      OctantEnds(Steep, y1, x1, y0, x0);
    } else {
      OctantEnds(Steep, y0, x0, y1, x1);
    }
  }

  /** Both endpoints are always plotted: the line runs from one endpoint to the
      other (from the one with the smaller coordinate along the dominant axis). */
  lemma LineEnds(x0: int, y0: int, x1: int, y1: int)
    ensures var r := Line(x0, y0, x1, y1);
      && Point(x0, y0) in r && Point(x1, y1) in r
      && (RunsFrom(r, Point(x0, y0), Point(x1, y1)) || RunsFrom(r, Point(x1, y1), Point(x0, y0)))
  {
    var r := Line(x0, y0, x1, y1);
    if IsShallow(x0, y0, x1, y1) {
      ShallowEnds(x0, y0, x1, y1);
    } else {
      SteepEnds(x0, y0, x1, y1);
    }
    assert r[0] in r && r[|r| - 1] in r;
  }

  /** The points plotted do not depend on which endpoint is given first: the
      sequence itself, and so the set, is the same. */
  lemma LineSymmetric(x0: int, y0: int, x1: int, y1: int)
    ensures Line(x0, y0, x1, y1) == Line(x1, y1, x0, y0)
  {
    if IsShallow(x0, y0, x1, y1) {
      assert IsShallow(x1, y1, x0, y0);
      assert x0 != x1;
    } else {
      assert !IsShallow(x1, y1, x0, y0);
      if y0 == y1 {
        assert x0 == x1;
      }
    }
  }
}
