/** The two branches of DrawCircle as point sequences: the filled branch scans the
    bounding box of the disk, the unfilled branch runs the midpoint circle
    algorithm on one octant and writes the eight symmetric images of each point. */
module Midpoint {
  import opened Pixels

  /** v*v, as the sum of the first |v| odd numbers: the same running sums by
      which the midpoint loop updates its decision value. */
  function Sq(v: int): nat
    decreases if v < 0 then 1 - v else v
  {
    if v < 0 then Sq(-v) else if v == 0 then 0 else Sq(v - 1) + 2 * v - 1
  }

  /** The odd-number step: (v + 1)^2 = v^2 + 2v + 1. */
  lemma SqNext(v: int)
    ensures Sq(v + 1) == Sq(v) + 2 * v + 1
  {
    if v < 0 {
      assert Sq(v) == Sq(-v) == Sq(-v - 1) + 2 * (-v) - 1;
      assert Sq(v + 1) == Sq(-v - 1);
    }
  }

  lemma {:induction false} SqIsProduct(v: int)
    ensures Sq(v) == v * v
    decreases if v < 0 then 1 - v else v
  {
    if v < 0 {
      SqIsProduct(-v);
      assert (-v) * (-v) == v * v;
    } else if v > 0 {
      SqIsProduct(v - 1);
      assert (v - 1) * (v - 1) + 2 * v - 1 == v * v;
    }
  }

  /** Squares grow with the magnitude. */
  lemma {:induction false} SqMonotone(u: int, v: int)
    requires 0 <= u <= v
    ensures Sq(u) <= Sq(v)
    decreases v - u
  {
    if u < v {
      SqMonotone(u, v - 1);
      SqNext(v - 1);
    }
  }

  /** The inclusive disk test of the filled branch, together with the bounds of
      its scan: offset (dx, dy) lies in the box [-r, r]^2 and dx^2 + dy^2 <= r^2. */
  predicate InDisk(dx: int, dy: int, r: int) {
    -r <= dx <= r && -r <= dy <= r && Sq(dx) + Sq(dy) <= Sq(r)
  }

  // ---------------------------------------------------------------------------
  // Filled branch

  /** The inner loop: dy from its current value up to r, column x0 + dx. */
  function Column(x0: int, y0: int, r: int, dx: int, dy: int): seq<Point>
    decreases r - dy + 1
  {
    if dy > r then []
    else
      (if Sq(dx) + Sq(dy) <= Sq(r) then [Point(x0 + dx, y0 + dy)] else [])
      + Column(x0, y0, r, dx, dy + 1)
  }

  /** The outer loop: dx from its current value up to r. */
  function Rows(x0: int, y0: int, r: int, dx: int): seq<Point>
    decreases r - dx + 1
  {
    if dx > r then [] else Column(x0, y0, r, dx, -r) + Rows(x0, y0, r, dx + 1)
  }

  /** The points the filled branch writes, in the order it writes them: exactly
      the lattice points of the closed disk of radius r about (x0, y0). */
  function Disk(x0: int, y0: int, r: int): (pts: seq<Point>)
    ensures forall x, y :: Point(x, y) in pts <==> InDisk(x - x0, y - y0, r)
  {
    ScanMembers(x0, y0, r);
    Rows(x0, y0, r, -r)
  }

  lemma {:induction false} ColumnMembers(x0: int, y0: int, r: int, dx: int, dy: int, p: Point)
    ensures p in Column(x0, y0, r, dx, dy) <==>
      p.x == x0 + dx && dy <= p.y - y0 <= r && Sq(dx) + Sq(p.y - y0) <= Sq(r)
    decreases r - dy + 1
  {
    if dy <= r {
      ColumnMembers(x0, y0, r, dx, dy + 1, p);
    }
  }

  lemma {:induction false} RowsMembers(x0: int, y0: int, r: int, dx: int, p: Point)
    requires -r <= dx
    ensures p in Rows(x0, y0, r, dx) <==> dx <= p.x - x0 && InDisk(p.x - x0, p.y - y0, r)
    decreases r - dx + 1
  {
    var a, b := p.x - x0, p.y - y0;
    if dx <= r {
      var col, rest := Column(x0, y0, r, dx, -r), Rows(x0, y0, r, dx + 1);
      assert Rows(x0, y0, r, dx) == col + rest;
      ColumnMembers(x0, y0, r, dx, -r, p);
      RowsMembers(x0, y0, r, dx + 1, p);
      assert p in col <==> a == dx && InDisk(a, b, r) by {
        if a == dx {
          assert Sq(dx) == Sq(a);
        }
      }
    } else {
      assert Rows(x0, y0, r, dx) == [];
    }
  }

  /** The whole scan, from dx = -r. */
  lemma ScanMembers(x0: int, y0: int, r: int)
    ensures forall x, y :: Point(x, y) in Rows(x0, y0, r, -r) <==> InDisk(x - x0, y - y0, r)
  {
    forall x, y
      ensures Point(x, y) in Rows(x0, y0, r, -r) <==> InDisk(x - x0, y - y0, r)
    {
      ScanPoint(x0, y0, r, x, y);
    }
  }

  lemma ScanPoint(x0: int, y0: int, r: int, x: int, y: int)
    ensures Point(x, y) in Rows(x0, y0, r, -r) <==> InDisk(x - x0, y - y0, r)
  {
    var p := Point(x, y);
    RowsMembers(x0, y0, r, -r, p);
    assert p.x - x0 == x - x0 && p.y - y0 == y - y0;
  }

  /** The filled branch writes exactly the lattice points of the closed disk of
      radius r about (x0, y0) (none at all when r is negative). */
  lemma {:induction false} DiskMembers(x0: int, y0: int, r: int, x: int, y: int)
    ensures Point(x, y) in Disk(x0, y0, r) <==> InDisk(x - x0, y - y0, r)
  {
    RowsMembers(x0, y0, r, -r, Point(x, y));
  }

  /** DiskMembers with the point given by its offset from the centre. */
  lemma DiskOffset(x0: int, y0: int, r: int, a: int, b: int)
    ensures Point(x0 + a, y0 + b) in Disk(x0, y0, r) <==> InDisk(a, b, r)
  {
    DiskMembers(x0, y0, r, x0 + a, y0 + b);
    assert (x0 + a) - x0 == a && (y0 + b) - y0 == b;
  }

  /** For |v| > r >= 0, v^2 > r^2. */
  lemma SqGrows(v: int, r: int)
    requires 0 <= r
    ensures Sq(v) <= Sq(r) ==> -r <= v <= r
  {
    SqNext(r);
    if v > r {
      SqMonotone(r + 1, v);
    } else if v < -r {
      assert Sq(v) == Sq(-v);
      SqMonotone(r + 1, -v);
    }
  }

  /** For a non-negative radius the scan box adds nothing: the disk test alone
      decides which points are written. */
  lemma DiskIsSquaredDistance(x0: int, y0: int, r: int, x: int, y: int)
    requires r >= 0
    ensures Point(x, y) in Disk(x0, y0, r) <==> Sq(x - x0) + Sq(y - y0) <= Sq(r)
  {
    DiskMembers(x0, y0, r, x, y);
    var dx, dy := x - x0, y - y0;
    assert Sq(dx) >= 0 && Sq(dy) >= 0;
    SqGrows(dx, r);
    SqGrows(dy, r);
  }

  // ---------------------------------------------------------------------------
  // Unfilled branch

  /** The loop state of the midpoint algorithm: octant point (x, y), running
      increments dx and dy and decision value err. */
  datatype State = State(x: int, y: int, dx: int, dy: int, err: int)

  function Start(r: int): State {
    State(r - 1, 0, 1, 1, 1 - 2 * r)
  }

  /** The updates at the end of one iteration: advance y while err <= 0, then,
      tested afresh, retreat x while err > 0. Every iteration does at least one
      of the two, which is why the loop terminates. */
  function Step(s: State, r: int): (t: State)
    ensures t.y > s.y || t.x < s.x
    ensures t.y >= s.y && t.x <= s.x
  {
    var s1 := if s.err <= 0 then s.(y := s.y + 1, err := s.err + s.dy, dy := s.dy + 2) else s;
    if s1.err > 0 then s1.(x := s1.x - 1, dx := s1.dx + 2, err := s1.err + (s1.dx + 2) - 2 * r) else s1
  }

  /** The octant points (x, y) at the head of each iteration while x >= y: none
      when the loop is not entered, and otherwise at most x - y + 1, since every
      iteration lowers x - y. */
  function Visit(s: State, r: int): (pts: seq<Point>)
    ensures |pts| == 0 <==> s.x < s.y
    ensures |pts| <= if s.x < s.y then 0 else s.x - s.y + 1
    decreases s.x - s.y
  {
    if s.x < s.y then [] else [Point(s.x, s.y)] + Visit(Step(s, r), r)
  }

  function OctantPoints(r: int): seq<Point> {
    Visit(Start(r), r)
  }

  /** The eight writes of one iteration, in source order, for octant point q. */
  function Eight(x0: int, y0: int, q: Point): (pts: seq<Point>)
    ensures |pts| == 8
    ensures forall i :: 0 <= i < |pts| ==> IsImage(pts[i].x - x0, pts[i].y - y0, q)
  {
    [ Point(x0 + q.x, y0 + q.y), Point(x0 + q.y, y0 + q.x),
      Point(x0 - q.y, y0 + q.x), Point(x0 - q.x, y0 + q.y),
      Point(x0 - q.x, y0 - q.y), Point(x0 - q.y, y0 - q.x),
      Point(x0 + q.y, y0 - q.x), Point(x0 + q.x, y0 - q.y) ]
  }

  function Spread(x0: int, y0: int, qs: seq<Point>): (pts: seq<Point>)
    ensures |pts| == 8 * |qs|
    decreases |qs|
  {
    if |qs| == 0 then [] else Eight(x0, y0, qs[0]) + Spread(x0, y0, qs[1..])
  }

  /** The points the unfilled branch writes, in the order it writes them. */
  function Outline(x0: int, y0: int, r: int): (pts: seq<Point>)
    ensures |pts| == 8 * |OctantPoints(r)|
    ensures |pts| == 0 <==> r <= 0
  {
    Spread(x0, y0, OctantPoints(r))
  }

  /** What the loop keeps: dy = 2y + 1, dx = 2(r - 1 - x) + 1,
      err = x^2 + y^2 - r^2, err <= 0 while the loop runs, and
      (x + 1)^2 + y^2 >= r^2, that is, err >= -(2x + 1). */
  predicate Inv(s: State, r: int) {
    && 0 <= s.y
    && s.x <= r - 1
    && s.dy == 2 * s.y + 1
    && s.dx == 2 * (r - 1 - s.x) + 1
    && s.err == Sq(s.x) + Sq(s.y) - Sq(r)
    && (s.x >= s.y ==> s.err <= 0)
    && s.err >= -(2 * s.x + 1)
  }

  lemma StartInv(r: int)
    ensures Inv(Start(r), r)
  {
    SqNext(r - 1);
  }

  lemma StepInv(s: State, r: int)
    requires Inv(s, r) && s.x >= s.y
    ensures Inv(Step(s, r), r)
    ensures Step(s, r).y == s.y + 1
  {
    var s1 := s.(y := s.y + 1, err := s.err + s.dy, dy := s.dy + 2);
    SqNext(s.y);
    assert s1.err == Sq(s.x) + Sq(s.y + 1) - Sq(r);
    if s1.err > 0 {
      SqNext(s.x - 1);
      var t := s1.(x := s1.x - 1, dx := s1.dx + 2, err := s1.err + (s1.dx + 2) - 2 * r);
      assert Step(s, r) == t;
      assert t.err == Sq(s.x - 1) + Sq(s.y + 1) - Sq(r);
    } else {
      assert Step(s, r) == s1;
    }
  }

  /** The point at the head of a running iteration lies in the annulus. */
  lemma HeadBounds(s: State, r: int)
    requires Inv(s, r) && s.x >= s.y
    ensures Sq(s.x) + Sq(s.y) <= Sq(r) <= Sq(s.x + 1) + Sq(s.y)
  {
    SqNext(s.x);
  }

  /** Octant point q lies in the annulus x^2 + y^2 <= r^2 <= (x + 1)^2 + y^2
      and below the diagonal: 0 <= y <= x <= r - 1. */
  predicate OnOctantArc(q: Point, r: int) {
    && 0 <= q.y <= q.x <= r - 1
    && Sq(q.x) + Sq(q.y) <= Sq(r) <= Sq(q.x + 1) + Sq(q.y)
  }

  /** Point i of qs is on the octant arc in row y0 + i: one point per row. */
  predicate ArcFromRow(qs: seq<Point>, y0: int, r: int) {
    forall i :: 0 <= i < |qs| ==> qs[i].y == y0 + i && OnOctantArc(qs[i], r)
  }

  /** Induction over the loop: every octant point it visits is on the arc, and
      the i-th has y = s.y + i. */
  lemma {:induction false} VisitBounds(s: State, r: int)
    requires Inv(s, r)
    ensures ArcFromRow(Visit(s, r), s.y, r)
    decreases s.x - s.y
  {
    if s.x >= s.y {
      var t := Step(s, r);
      StepInv(s, r);
      VisitBounds(t, r);
      HeadBounds(s, r);
      var qs := Visit(s, r);
      var rest := Visit(t, r);
      assert qs == [Point(s.x, s.y)] + rest;
      forall i | 0 <= i < |qs|
        ensures qs[i].y == s.y + i && OnOctantArc(qs[i], r)
      {
        if i > 0 {
          assert qs[i] == rest[i - 1];
        }
      }
    }
  }

  /** Every point of the octant walk lies on the discrete arc, the i-th in row i. */
  lemma OctantBounds(r: int)
    ensures ArcFromRow(OctantPoints(r), 0, r)
  {
    StartInv(r);
    VisitBounds(Start(r), r);
  }

  lemma {:induction false} SpreadMembers(x0: int, y0: int, qs: seq<Point>, p: Point)
    ensures p in Spread(x0, y0, qs) <==> exists i :: 0 <= i < |qs| && p in Eight(x0, y0, qs[i])
    decreases |qs|
  {
    if |qs| > 0 {
      SpreadMembers(x0, y0, qs[1..], p);
      if p in Spread(x0, y0, qs) && p !in Eight(x0, y0, qs[0]) {
        var i :| 0 <= i < |qs[1..]| && p in Eight(x0, y0, qs[1..][i]);
        assert qs[1..][i] == qs[i + 1];
      }
      if exists i :: 0 <= i < |qs| && p in Eight(x0, y0, qs[i]) {
        var i :| 0 <= i < |qs| && p in Eight(x0, y0, qs[i]);
        if i > 0 {
          assert qs[1..][i - 1] == qs[i];
        }
      }
    }
  }

  /** Offset (a, b) is one of the eight images (+-x, +-y), (+-y, +-x) of q. */
  predicate IsImage(a: int, b: int, q: Point) {
    || ((a == q.x || a == -q.x) && (b == q.y || b == -q.y))
    || ((a == q.y || a == -q.y) && (b == q.x || b == -q.x))
  }

  /** The eight writes of one iteration are exactly the images of its octant point. */
  lemma EightMembers(x0: int, y0: int, q: Point, a: int, b: int)
    ensures Point(x0 + a, y0 + b) in Eight(x0, y0, q) <==> IsImage(a, b, q)
  {
    var e := Eight(x0, y0, q);
    if IsImage(a, b, q) {
      if a == q.x && b == q.y { assert e[0] == Point(x0 + a, y0 + b); }
      else if a == q.y && b == q.x { assert e[1] == Point(x0 + a, y0 + b); }
      else if a == -q.y && b == q.x { assert e[2] == Point(x0 + a, y0 + b); }
      else if a == -q.x && b == q.y { assert e[3] == Point(x0 + a, y0 + b); }
      else if a == -q.x && b == -q.y { assert e[4] == Point(x0 + a, y0 + b); }
      else if a == -q.y && b == -q.x { assert e[5] == Point(x0 + a, y0 + b); }
      else if a == q.y && b == -q.x { assert e[6] == Point(x0 + a, y0 + b); }
      else { assert e[7] == Point(x0 + a, y0 + b); }
    }
  }

  /** A point is written by the unfilled branch iff its offset from the centre
      is an image of some octant point of the walk. */
  lemma OutlineMembers(x0: int, y0: int, r: int, a: int, b: int)
    ensures Point(x0 + a, y0 + b) in Outline(x0, y0, r) <==>
      exists i :: 0 <= i < |OctantPoints(r)| && IsImage(a, b, OctantPoints(r)[i])
  {
    var qs := OctantPoints(r);
    var p := Point(x0 + a, y0 + b);
    SpreadMembers(x0, y0, qs, p);
    if p in Outline(x0, y0, r) {
      var i :| 0 <= i < |qs| && p in Eight(x0, y0, qs[i]);
      EightMembers(x0, y0, qs[i], a, b);
    }
    if exists i :: 0 <= i < |qs| && IsImage(a, b, qs[i]) {
      var i :| 0 <= i < |qs| && IsImage(a, b, qs[i]);
      EightMembers(x0, y0, qs[i], a, b);
    }
  }

  /** The outline is symmetric about the vertical, horizontal and diagonal axes
      through the centre: reflecting a written point gives a written point. */
  lemma OutlineSymmetric(x0: int, y0: int, r: int, a: int, b: int)
    requires Point(x0 + a, y0 + b) in Outline(x0, y0, r)
    ensures Point(x0 - a, y0 + b) in Outline(x0, y0, r)
    ensures Point(x0 + a, y0 - b) in Outline(x0, y0, r)
    ensures Point(x0 + b, y0 + a) in Outline(x0, y0, r)
  {
    var qs := OctantPoints(r);
    OutlineMembers(x0, y0, r, a, b);
    var i :| 0 <= i < |qs| && IsImage(a, b, qs[i]);
    ReflectImage(a, b, qs[i]);
    OutlineMembers(x0, y0, r, -a, b);
    OutlineMembers(x0, y0, r, a, -b);
    OutlineMembers(x0, y0, r, b, a);
    assert Point(x0 + -a, y0 + b) == Point(x0 - a, y0 + b);
    assert Point(x0 + a, y0 + -b) == Point(x0 + a, y0 - b);
  }

  /** The images of a point are closed under the three reflections. */
  lemma ReflectImage(a: int, b: int, q: Point)
    requires IsImage(a, b, q)
    ensures IsImage(-a, b, q) && IsImage(a, -b, q) && IsImage(b, a, q)
  {
  }

  /** The images of an arc point keep its squared distance from the centre. */
  lemma ImageOnCircle(a: int, b: int, q: Point, r: int)
    requires IsImage(a, b, q) && OnOctantArc(q, r)
    ensures Sq(a) + Sq(b) <= Sq(r)
    ensures Sq(r) <= Sq(Abs(a) + 1) + Sq(b) || Sq(r) <= Sq(a) + Sq(Abs(b) + 1)
    ensures InDisk(a, b, r)
  {
    assert Sq(-q.x) == Sq(q.x) && Sq(-q.y) == Sq(q.y);
    if (a == q.x || a == -q.x) && (b == q.y || b == -q.y) {
      assert Sq(a) == Sq(q.x) && Sq(b) == Sq(q.y) && Abs(a) == q.x;
    } else {
      assert Sq(a) == Sq(q.y) && Sq(b) == Sq(q.x) && Abs(b) == q.x;
    }
  }

  /** Every point of the outline is an image (+-x, +-y) or (+-y, +-x) of an octant
      point with 0 <= y <= x and x^2 + y^2 <= r^2 <= (x + 1)^2 + y^2: the outline
      lies on the discrete circle, and inside the filled disk of the same radius. */
  lemma OutlineOnCircle(x0: int, y0: int, r: int, a: int, b: int)
    requires Point(x0 + a, y0 + b) in Outline(x0, y0, r)
    ensures Sq(a) + Sq(b) <= Sq(r)
    ensures Sq(r) <= Sq(Abs(a) + 1) + Sq(b) || Sq(r) <= Sq(a) + Sq(Abs(b) + 1)
    ensures InDisk(a, b, r) && Point(x0 + a, y0 + b) in Disk(x0, y0, r)
  {
    var qs := OctantPoints(r);
    OutlineMembers(x0, y0, r, a, b);
    var i :| 0 <= i < |qs| && IsImage(a, b, qs[i]);
    OctantBounds(r);
    assert OnOctantArc(qs[i], r);
    ImageOnCircle(a, b, qs[i], r);
    DiskOffset(x0, y0, r, a, b);
  }

  /** OutlineOnCircle for a point given by its coordinates. */
  lemma OutlineInDisk(x0: int, y0: int, r: int, x: int, y: int)
    ensures Point(x, y) in Outline(x0, y0, r) ==> InDisk(x - x0, y - y0, r)
  {
    if Point(x, y) in Outline(x0, y0, r) {
      var a, b := x - x0, y - y0;
      assert Point(x0 + a, y0 + b) == Point(x, y);
      OutlineOnCircle(x0, y0, r, a, b);
    }
  }
}
