/** Bresenham rasterisation of a segment between two integer points
    (Line::line). Coordinates are unbounded integers: the 32-bit overflow
    of coordinate differences is not modelled. */
module Raster {
  import opened Seqs

  datatype Point2 = Point2(x: int, y: int)

  /** The twice-signed area of the triangle (a, b, p): zero exactly when p
      lies on the ideal line through a and b. */
  function Cross(a: Point2, b: Point2, p: Point2): int
  {
    (b.x - a.x) * (p.y - a.y) - (b.y - a.y) * (p.x - a.x)
  }

  /** The segment rises faster than it runs: y is the major axis. */
  predicate Steep(from: Point2, to: Point2)
  {
    Abs(to.y - from.y) > Abs(to.x - from.x)
  }

  /** The direction of travel from a to b along one axis. */
  function Dir(a: int, b: int): int
  {
    if a < b then 1 else -1
  }

  /** One step of a raster from `from` to `to`: exactly one unit towards
      `to` along the major axis, at most one unit along the minor axis. */
  predicate Step(from: Point2, to: Point2, p: Point2, q: Point2)
  {
    if Steep(from, to) then q.y - p.y == Dir(from.y, to.y) && Abs(q.x - p.x) <= 1
    else q.x - p.x == Dir(from.x, to.x) && Abs(q.y - p.y) <= 1
  }

  /** A point with its axes swapped when the line is steep. */
  function Orient(p: Point2, steep: bool): Point2
  {
    if steep then Point2(p.y, p.x) else p
  }

  /** Orienting twice gives the point back. */
  lemma OrientTwice(p: Point2, steep: bool)
    ensures Orient(Orient(p, steep), steep) == p
  {
  }

  /** The list the loop builds from the points it generates in normalised
      coordinates: each point oriented back, pushed at the back, or at the
      front when the endpoints were exchanged. */
  function Emit(gen: seq<Point2>, steep: bool, rev: bool): seq<Point2>
  {
    if gen == [] then []
    else
      var p, q := gen[..|gen| - 1], Orient(gen[|gen| - 1], steep);
      if rev then [q] + Emit(p, steep, rev) else Emit(p, steep, rev) + [q]
  }

  /** The emitted list is the generated one, oriented, and reversed when the
      endpoints were exchanged. */
  lemma {:induction false} EmitAt(gen: seq<Point2>, steep: bool, rev: bool)
    ensures |Emit(gen, steep, rev)| == |gen|
    ensures forall i :: 0 <= i < |gen| ==>
      Emit(gen, steep, rev)[i] == Orient(gen[if rev then |gen| - 1 - i else i], steep)
  {
    if gen != [] {
      EmitAt(gen[..|gen| - 1], steep, rev);
    }
  }

  /** Orienting all three points flips the sign of the area. */
  lemma CrossOrient(a: Point2, b: Point2, p: Point2, steep: bool)
    ensures Abs(Cross(Orient(a, steep), Orient(b, steep), Orient(p, steep))) == Abs(Cross(a, b, p))
  {
    if steep {
      var u, v := b.x - a.x, b.y - a.y;
      var s, t := p.x - a.x, p.y - a.y;
      assert Cross(Orient(a, steep), Orient(b, steep), Orient(p, steep)) == v * s - u * t;
      assert Cross(a, b, p) == u * t - v * s;
    }
  }

  /** The area does not depend on which endpoint is taken as the origin. */
  lemma CrossSwap(a: Point2, b: Point2, p: Point2)
    ensures Abs(Cross(b, a, p)) == Abs(Cross(a, b, p))
  {
    assert Cross(b, a, p) == - Cross(a, b, p) by {
      calc {
        Cross(b, a, p);
        (a.x - b.x) * (p.y - b.y) - (a.y - b.y) * (p.x - b.x);
        (a.x - b.x) * (p.y - a.y + a.y - b.y) - (a.y - b.y) * (p.x - a.x + a.x - b.x);
        (a.x - b.x) * (p.y - a.y) - (a.y - b.y) * (p.x - a.x);
      }
    }
  }

  /** k copies of a added up: multiplication by repeated addition, which the
      loop's invariant uses so that its steps stay linear. */
  function Times(a: int, k: nat): int
  {
    if k == 0 then 0 else Times(a, k - 1) + a
  }

  lemma {:induction false} TimesIs(a: int, k: nat)
    ensures Times(a, k) == a * k
  {
    if k > 0 {
      TimesIs(a, k - 1);
    }
  }

  /** n units from y in the direction ystep. */
  function Move(y: int, ystep: int, n: int): int
  {
    if ystep < 0 then y - n else y + n
  }

  /** The state of the loop after x - a.x steps with n minor-axis moves:
      y has moved n units in the direction ystep, and the error term
      measures, offset by half a step, how far the point is from the ideal
      line, scaled by dx. */
  ghost predicate Tracking(a: Point2, dx: int, dy: int, ystep: int, half: int, x: int, y: int, n: nat, error: int)
  {
    0 <= dy <= dx && (ystep == 1 || ystep == -1) && 0 <= half && 2 * half <= dx <= 2 * half + 1 &&
    a.x <= x && n <= x - a.x && y == Move(a.y, ystep, n) &&
    Times(dx, n) == Times(dy, x - a.x) - half + error &&
    (0 <= error < dx || (dx == 0 && error == 0))
  }

  /** One iteration of the loop keeps the tracking invariant, whether or not
      the error term went negative. */
  lemma Advance(a: Point2, dx: int, dy: int, ystep: int, half: int, x: int, y: int, n: nat, error: int,
                y': int, n': nat, error': int)
    requires Tracking(a, dx, dy, ystep, half, x, y, n, error)
    requires error - dy < 0 ==> y' == y + ystep && n' == n + 1 && error' == error - dy + dx
    requires error - dy >= 0 ==> y' == y && n' == n && error' == error - dy
    ensures Tracking(a, dx, dy, ystep, half, x + 1, y', n', error')
  {
    assert Times(dy, x + 1 - a.x) == Times(dy, x - a.x) + dy;
  }

  /** The bound the error term keeps, read as a distance: a point n
      minor-axis units and j major-axis units from a lies within half a
      pixel of the ideal line from a to b. */
  lemma NearOf(a: Point2, dx: int, dy: int, ystep: int, n: nat, j: nat)
    requires ystep == 1 || ystep == -1
    requires Within(dx, dy, n, j)
    ensures 2 * Abs(Cross(a, Point2(a.x + dx, Move(a.y, ystep, dy)), Point2(a.x + j, Move(a.y, ystep, n)))) <= dx
  {
    TimesIs(dx, n);
    TimesIs(dy, j);
    var b, p := Point2(a.x + dx, Move(a.y, ystep, dy)), Point2(a.x + j, Move(a.y, ystep, n));
    if ystep == 1 {
      assert Cross(a, b, p) == dx * n - dy * j;
    } else {
      var n': int, dy': int, j': int := n, dy, j;
      MulNeg(dx, n', dy', j');
      assert Cross(a, b, p) == dx * -n' - -dy' * j';
    }
  }

  lemma MulNeg(a: int, b: int, c: int, d: int)
    ensures a * -b - -c * d == -(a * b - c * d)
  {
  }

  /** After dx steps the number of minor-axis moves is exactly dy, so the
      last point pushed is the far endpoint. */
  lemma LastMinor(a: Point2, dx: int, dy: int, ystep: int, half: int, x: int, y: int, n: nat, error: int)
    requires Tracking(a, dx, dy, ystep, half, x, y, n, error) && x == a.x + dx
    ensures y == Move(a.y, ystep, dy)
  {
    if dx > 0 {
      TimesIs(dx, n);
      TimesIs(dy, dx);
      assert n * dx == dy * dx - half + error;
      MulSub(n, dy, dx);
      OnlyZeroMultiple(n - dy, dx);
    }
  }

  lemma MulSub(a: int, b: int, d: int)
    ensures (a - b) * d == a * d - b * d
  {
  }

  /** The only multiple of d strictly between -d and d is 0 * d. */
  lemma OnlyZeroMultiple(k: int, d: int)
    requires d > 0 && -d < k * d < d
    ensures k == 0
  {
    if k >= 1 {
      MulAtLeast(k, d);
    } else if k <= -1 {
      MulAtLeast(-k, d);
    }
  }

  lemma MulAtLeast(k: int, d: int)
    requires k >= 1 && d >= 0
    ensures k * d >= d
  {
  }

  /** The points generated so far in normalised coordinates (a to b with
      a.x <= b.x and a shallow slope): one per column from a.x on, each
      within half a pixel of the ideal line, each a unit step from the one
      before on the minor axis. */
  ghost predicate Rastered(a: Point2, b: Point2, gen: seq<Point2>)
  {
    (forall j :: 0 <= j < |gen| ==> gen[j].x == a.x + j) &&
    (forall j :: 0 <= j < |gen| ==> 2 * Abs(Cross(a, b, gen[j])) <= b.x - a.x) &&
    (forall j :: 0 <= j < |gen| - 1 ==> Abs(gen[j + 1].y - gen[j].y) <= 1)
  }

  /** The same points with their minor-axis move counts ns: point j is j
      columns and ns[j] minor-axis units from a, the error bound holds for
      it, and the count grows by at most one per column. */
  /** The error bound for the point n minor-axis units and j columns from
      the start: within half a pixel, scaled by dx. */
  ghost predicate Within(dx: int, dy: int, n: nat, j: nat)
  {
    2 * Abs(Times(dx, n) - Times(dy, j)) <= dx
  }

  ghost predicate Swept(a: Point2, dx: int, dy: int, ystep: int, gen: seq<Point2>, ns: seq<nat>)
  {
    |ns| == |gen| &&
    (forall j :: 0 <= j < |gen| ==> gen[j] == Point2(a.x + j, Move(a.y, ystep, ns[j]))) &&
    (forall j :: 0 <= j < |gen| ==> Within(dx, dy, ns[j], j)) &&
    (forall j :: 0 <= j < |gen| - 1 ==> ns[j] <= ns[j + 1] <= ns[j] + 1)
  }

  /** Pushing the current point keeps the sweep. */
  lemma SweepNext(a: Point2, dx: int, dy: int, ystep: int, half: int, gen: seq<Point2>, ns: seq<nat>,
                  x: int, y: int, n: nat, error: int)
    requires Tracking(a, dx, dy, ystep, half, x, y, n, error) && Swept(a, dx, dy, ystep, gen, ns)
    requires |gen| == x - a.x && (|gen| > 0 ==> ns[|gen| - 1] <= n <= ns[|gen| - 1] + 1)
    ensures Swept(a, dx, dy, ystep, gen + [Point2(x, y)], ns + [n])
  {
    var g, m := gen + [Point2(x, y)], ns + [n];
    forall j | 0 <= j < |g|
      ensures g[j] == Point2(a.x + j, Move(a.y, ystep, m[j])) && Within(dx, dy, m[j], j)
    {
      if j < |gen| {
        assert g[j] == gen[j] && m[j] == ns[j];
      }
    }
    forall j | 0 <= j < |g| - 1
      ensures m[j] <= m[j + 1] <= m[j] + 1
    {
      assert m[j] == ns[j];
    }
  }

  /** The sweep read as a raster of the segment from a to b. */
  lemma SweptRastered(a: Point2, dx: int, dy: int, ystep: int, gen: seq<Point2>, ns: seq<nat>)
    requires Swept(a, dx, dy, ystep, gen, ns) && (ystep == 1 || ystep == -1)
    ensures Rastered(a, Point2(a.x + dx, Move(a.y, ystep, dy)), gen)
  {
    var b := Point2(a.x + dx, Move(a.y, ystep, dy));
    forall j | 0 <= j < |gen|
      ensures 2 * Abs(Cross(a, b, gen[j])) <= b.x - a.x
    {
      NearOf(a, dx, dy, ystep, ns[j], j);
    }
  }

  /** The list after one push: the new point, oriented, at the front or the
      back. */
  lemma EmitPush(gen: seq<Point2>, q: Point2, steep: bool, rev: bool)
    ensures Emit(gen + [q], steep, rev) ==
      if rev then [Orient(q, steep)] + Emit(gen, steep, rev) else Emit(gen, steep, rev) + [Orient(q, steep)]
  {
    assert (gen + [q])[..|gen|] == gen;
  }

  /** Line::line(from, to): the points of the raster from `from` to `to`, in
      order. It has one point per unit of the major axis, starts at `from`,
      ends at `to` (also when the list is built backwards with push_front),
      every step is a unit step along the major axis, and every point is
      within half a pixel of the ideal line. */
  method Line(from: Point2, to: Point2) returns (ret: seq<Point2>)
    ensures |ret| == Max(Abs(to.x - from.x), Abs(to.y - from.y)) + 1
    ensures ret[0] == from && ret[|ret| - 1] == to
    ensures forall i :: 0 <= i < |ret| - 1 ==> Step(from, to, ret[i], ret[i + 1])
    ensures forall i :: 0 <= i < |ret| ==> 2 * Abs(Cross(from, to, ret[i])) <= |ret| - 1
  {
    ret := [];
    var rev := false;
    var x0, y0, x1, y1 := from.x, from.y, to.x, to.y;
    var steep := Abs(y1 - y0) > Abs(x1 - x0);
    if steep {
      x0, y0 := y0, x0;
      x1, y1 := y1, x1;
    }
    if x0 > x1 {
      x0, x1 := x1, x0;
      y0, y1 := y1, y0;
      rev := true;
    }
    ghost var gen;
    ret, gen := Sweep(x0, y0, x1, y1, steep, rev);
    EmitAt(gen, steep, rev);
    Lift(from, to, gen, steep, rev, Point2(x0, y0), Point2(x1, y1), ret);
  }

  /** The loop of Line::line, once the endpoints are normalised so that x is
      the major axis and x0 <= x1: one point per column, the minor
      coordinate moved whenever the error term goes negative, each point
      pushed, oriented back, at the back of the list, or at the front when
      the endpoints were exchanged. The ghost result is the points in
      normalised coordinates. */
  method Sweep(x0: int, y0: int, x1: int, y1: int, steep: bool, rev: bool) returns (ret: seq<Point2>, ghost gen: seq<Point2>)
    requires x0 <= x1 && Abs(y1 - y0) <= x1 - x0
    ensures ret == Emit(gen, steep, rev)
    ensures |gen| == x1 - x0 + 1 && gen[|gen| - 1] == Point2(x1, y1)
    ensures gen[0] == Point2(x0, y0) && Rastered(Point2(x0, y0), Point2(x1, y1), gen)
  {
    ret := [];
    var dx := x1 - x0;
    var dy := Abs(y1 - y0);
    var error := dx / 2;
    var ystep := if y0 < y1 then 1 else -1;
    var y := y0;
    ghost var a, b := Point2(x0, y0), Point2(x1, y1);
    assert b == Point2(a.x + dx, Move(a.y, ystep, dy));
    gen := [];
    ghost var ns: seq<nat> := [];
    ghost var n: nat, half := 0, error;
    var x := x0;
    while x <= x1
      invariant SweepInv(a, b, dx, dy, ystep, half, steep, rev, x, y, n, error, gen, ns, ret)
    {
      ret, y, error, gen, ns, n := SweepColumn(a, b, dx, dy, ystep, half, steep, rev, x, y, n, error, gen, ns, ret);
      x := x + 1;
    }
    SweptRastered(a, dx, dy, ystep, gen, ns);
  }

  /** One pass of the loop of Sweep: push the point of column x, oriented
      back, at the back of the list or at the front, then move the minor
      coordinate when the error term goes negative. */
  method SweepColumn(ghost a: Point2, ghost b: Point2, dx: int, dy: int, ystep: int, ghost half: int, steep: bool, rev: bool,
                     x: int, y: int, ghost n: nat, error: int, ghost gen: seq<Point2>, ghost ns: seq<nat>, ret: seq<Point2>)
    returns (ret': seq<Point2>, y': int, error': int, ghost gen': seq<Point2>, ghost ns': seq<nat>, ghost n': nat)
    requires SweepInv(a, b, dx, dy, ystep, half, steep, rev, x, y, n, error, gen, ns, ret)
    requires x <= b.x && b == Point2(a.x + dx, Move(a.y, ystep, dy))
    ensures SweepInv(a, b, dx, dy, ystep, half, steep, rev, x + 1, y', n', error', gen', ns', ret')
  {
    var p := if steep then Point2(y, x) else Point2(x, y);
    if rev {
      ret' := [p] + ret;
    } else {
      ret' := ret + [p];
    }
    gen', ns' := gen + [Point2(x, y)], ns + [n];
    y', error', n' := y, error - dy, n;
    if error' < 0 {
      y' := y' + ystep;
      error' := error' + dx;
      n' := n' + 1;
    }
    SweepKeeps(a, b, dx, dy, ystep, half, steep, rev, x, y, n, error, gen, ns, ret, y', n', error', gen', ns', ret');
  }

  /** The loop invariant of Sweep: the error term tracks the distance to
      the ideal line, the points pushed so far are the sweep up to column
      x, the last of them is b once the loop is over, and the list holds
      them oriented back, in order or reversed. */
  ghost predicate SweepInv(a: Point2, b: Point2, dx: int, dy: int, ystep: int, half: int, steep: bool, rev: bool,
                           x: int, y: int, n: nat, error: int, gen: seq<Point2>, ns: seq<nat>, ret: seq<Point2>)
  {
    Tracking(a, dx, dy, ystep, half, x, y, n, error) && a.x <= b.x && x <= b.x + 1 && |gen| == x - a.x &&
    Swept(a, dx, dy, ystep, gen, ns) && |ns| == |gen| &&
    (|gen| == 0 ==> n == 0) &&
    (|gen| > 0 ==> ns[0] == 0 && ns[|gen| - 1] <= n <= ns[|gen| - 1] + 1) &&
    (x > b.x ==> gen[|gen| - 1] == b) &&
    ret == Emit(gen, steep, rev)
  }

  /** One pass of the loop of Sweep keeps its invariant. */
  lemma SweepKeeps(a: Point2, b: Point2, dx: int, dy: int, ystep: int, half: int, steep: bool, rev: bool,
                   x: int, y: int, n: nat, error: int, gen: seq<Point2>, ns: seq<nat>, ret: seq<Point2>,
                   y': int, n': nat, error': int, gen': seq<Point2>, ns': seq<nat>, ret': seq<Point2>)
    requires SweepInv(a, b, dx, dy, ystep, half, steep, rev, x, y, n, error, gen, ns, ret)
    requires x <= b.x && b == Point2(a.x + dx, Move(a.y, ystep, dy))
    requires gen' == gen + [Point2(x, y)] && ns' == ns + [n]
    requires rev ==> ret' == [Orient(Point2(x, y), steep)] + ret
    requires !rev ==> ret' == ret + [Orient(Point2(x, y), steep)]
    requires error - dy < 0 ==> y' == y + ystep && n' == n + 1 && error' == error - dy + dx
    requires error - dy >= 0 ==> y' == y && n' == n && error' == error - dy
    ensures SweepInv(a, b, dx, dy, ystep, half, steep, rev, x + 1, y', n', error', gen', ns', ret')
  {
    if x == b.x {
      LastMinor(a, dx, dy, ystep, half, x, y, n, error);
    }
    SweepNext(a, dx, dy, ystep, half, gen, ns, x, y, n, error);
    EmitPush(gen, Point2(x, y), steep, rev);
    Advance(a, dx, dy, ystep, half, x, y, n, error, y', n', error');
  }

  /** The normalised raster read back in the caller's coordinates. */
  lemma Lift(from: Point2, to: Point2, gen: seq<Point2>, steep: bool, rev: bool, a: Point2, b: Point2,
             ret: seq<Point2>)
    requires steep == Steep(from, to)
    requires rev ==> Orient(to, steep) == a && Orient(from, steep) == b
    requires !rev ==> Orient(from, steep) == a && Orient(to, steep) == b
    requires a.x <= b.x && (rev ==> a.x < b.x) && Abs(b.y - a.y) <= b.x - a.x
    requires b.x - a.x == Max(Abs(to.x - from.x), Abs(to.y - from.y))
    requires |gen| == b.x - a.x + 1 && gen[0] == a && gen[|gen| - 1] == b
    requires Rastered(a, b, gen) && |ret| == |gen|
    requires forall i :: 0 <= i < |gen| ==> ret[i] == Orient(gen[if rev then |gen| - 1 - i else i], steep)
    ensures ret[0] == from && ret[|ret| - 1] == to
    ensures forall i :: 0 <= i < |ret| - 1 ==> Step(from, to, ret[i], ret[i + 1])
    ensures forall i :: 0 <= i < |ret| ==> 2 * Abs(Cross(from, to, ret[i])) <= |ret| - 1
  {
    forall i | 0 <= i < |ret| - 1
      ensures Step(from, to, ret[i], ret[i + 1])
    {
      var k := if rev then |gen| - 1 - i else i;
      var k' := if rev then |gen| - 2 - i else i + 1;
      assert ret[i] == Orient(gen[k], steep) && ret[i + 1] == Orient(gen[k'], steep);
      StepNormalised(from, to, gen[k], gen[k'], steep, rev, a, b);
    }
    forall i | 0 <= i < |ret|
      ensures 2 * Abs(Cross(from, to, ret[i])) <= |ret| - 1
    {
      var k := if rev then |gen| - 1 - i else i;
      CrossOrient(a, b, gen[k], steep);
      CrossSwap(a, b, gen[k]);
      CrossSwap(Orient(a, steep), Orient(b, steep), ret[i]);
    }
  }

  /** One normalised step, read back in the caller's coordinates. */
  lemma StepNormalised(from: Point2, to: Point2, g: Point2, g': Point2, steep: bool, rev: bool, a: Point2, b: Point2)
    requires steep == Steep(from, to)
    requires rev ==> Orient(to, steep) == a && Orient(from, steep) == b
    requires !rev ==> Orient(from, steep) == a && Orient(to, steep) == b
    requires a.x < b.x
    requires rev ==> g.x == g'.x + 1 && Abs(g.y - g'.y) <= 1
    requires !rev ==> g'.x == g.x + 1 && Abs(g'.y - g.y) <= 1
    ensures Step(from, to, Orient(g, steep), Orient(g', steep))
  {
  }
}
