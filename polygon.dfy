/** Polygon (Geometry.h, Geometry.cpp): a vertex list with cached derived
    values. Editing the vertex list resets every cache; getConvexHull
    computes the monotone-chain hull once and keeps it until the next edit;
    pointInPolygon is the bounding-box test followed by PNPOLY. The cached
    hull is held as its vertex list rather than as a second Polygon. */
module Polygons {
  import opened Seqs
  import opened Geometry

  datatype Tristate = True | False | Unknown

  const LongMax := 0x7fff_ffff_ffff_ffff
  const LongMin := -0x8000_0000_0000_0000

  /** A long64 value. */
  predicate IsLong(v: int)
  {
    LongMin <= v <= LongMax
  }

  /** unsigned int holding a size: the size modulo 2^32. */
  function UInt(n: nat): (r: nat)
    ensures r < Word
    ensures n < Word ==> r == n
  {
    n % Word
  }

  // ---------------------------------------------------------------------
  // The chain loops of getConvexHull

  /** The inner while loop: erase the middle of the last three points while
      they turn clockwise. */
  method PopClockwise(chain: seq<IPoint>) returns (r: seq<IPoint>)
    ensures r == PopRight(Det, chain)
  {
    r := chain;
    while |r| > 2
      invariant PopRight(Det, r) == PopRight(Det, chain)
      decreases |r|
    {
      var n := |r|;
      if Det(r[n - 1], r[n - 2], r[n - 3]) < 0 {
        r := r[..n - 2] + [r[n - 1]];
      } else {
        break;
      }
    }
  }

  /** The upper chain's for loop: push points[2], points[3], ... each
      followed by the inner loop. */
  method UpperLoop(s: seq<IPoint>) returns (upper: seq<IPoint>)
    requires |s| >= 3
    ensures upper == UpperChain(Det, s)
  {
    upper := [s[0], s[1]];
    var i := 2;
    while i < |s|
      invariant 2 <= i <= |s| && |upper| >= 2
      invariant Scan(Det, upper, s, i) == UpperChain(Det, s)
      decreases |s| - i
    {
      upper := PopClockwise(upper + [s[i]]);
      i := i + 1;
    }
  }

  /** The lower chain's for loop, run from points[n - 3] down to points[0]
      (Geometry.cpp line 60 stops before points[0]). */
  method LowerLoop(s: seq<IPoint>) returns (lower: seq<IPoint>)
    requires |s| >= 3
    ensures lower == LowerChain(Det, s, 0)
  {
    var n := |s|;
    lower := [s[n - 1], s[n - 2]];
    ghost var down := Downward(s, 0);
    var i := n - 3;
    while i >= 0
      invariant -1 <= i <= n - 3 && |lower| >= 2
      invariant Scan(Det, lower, down, n - 3 - i) == LowerChain(Det, s, 0)
      decreases i
    {
      assert down[n - 3 - i] == s[i];
      lower := PopClockwise(lower + [s[i]]);
      i := i - 1;
    }
  }

  // ---------------------------------------------------------------------
  // The class

  class Polygon {
    var points: seq<IPoint>
    /** mIsConvex: set by the constructor's guaranteedConvex. */
    var convex: bool
    /** mConvexHull: the cached hull, if computed. */
    var hull: Option<seq<IPoint>>
    var simple: Tristate
    var centroid: IPoint
    var signedArea: real

    /** A cached hull is the hull of the current vertices. */
    ghost predicate Valid()
      reads this
    {
      hull.Some? ==> |points| >= 3 && hull.value == ConvexHull(points)
    }

    /** Every cache at its reset value. */
    ghost predicate Reset()
      reads this
    {
      !convex && hull == None && simple == Unknown && centroid == Origin && signedArea == 0.0
    }

    /** Polygon(points, guaranteedConvex). */
    constructor (pts: seq<IPoint>, guaranteedConvex: bool)
      ensures Valid()
      ensures points == pts && convex == guaranteedConvex
      ensures hull == None && simple == Unknown && centroid == Origin && signedArea == 0.0
    {
      points := pts;
      convex := guaranteedConvex;
      hull := None;
      simple := Unknown;
      centroid := Origin;
      signedArea := 0.0;
    }

    /** Polygon(guaranteedConvex): no vertices. */
    constructor Empty(guaranteedConvex: bool)
      ensures Valid()
      ensures points == [] && convex == guaranteedConvex
      ensures hull == None && simple == Unknown && centroid == Origin && signedArea == 0.0
    {
      points := [];
      convex := guaranteedConvex;
      hull := None;
      simple := Unknown;
      centroid := Origin;
      signedArea := 0.0;
    }

    method InvalidateCaches()
      modifies this
      ensures Valid() && Reset()
      ensures points == old(points)
    {
      convex := false;
      hull := None;
      simple := Unknown;
      centroid := Origin;
      signedArea := 0.0;
    }

    /** addPoint: p appended, every cache reset. */
    method AddPoint(p: IPoint)
      modifies this
      ensures Valid() && Reset()
      ensures points == old(points) + [p]
    {
      InvalidateCaches();
      points := points + [p];
    }

    /** removePoint: every vertex equal to p erased, the rest in order. */
    method RemovePoint(p: IPoint)
      modifies this
      ensures Valid() && Reset()
      ensures points == RemoveAll(old(points), p)
    {
      InvalidateCaches();
      points := RemoveAll(points, p);
    }

    method Clear()
      modifies this
      ensures Valid() && Reset()
      ensures points == [] && IsEmpty()
    {
      InvalidateCaches();
      points := [];
    }

    method SetPoints(ps: seq<IPoint>)
      modifies this
      ensures Valid() && Reset()
      ensures points == ps
    {
      InvalidateCaches();
      points := ps;
    }

    /** getNumPoints: the size as an unsigned int. */
    function NumPoints(): (r: nat)
      reads this
      ensures r < Word
      ensures |points| < Word ==> r == |points|
    {
      UInt(|points|)
    }

    function IsEmpty(): (r: bool)
      reads this
      ensures r <==> points == []
    {
      |points| == 0
    }

    /** getConvexHull: the polygon itself when it is flagged convex or has
        fewer than three vertices; otherwise the cached hull, computed and
        cached on the first call. Every hull vertex is a vertex. */
    method GetConvexHull() returns (r: seq<IPoint>)
      requires Valid()
      modifies this
      ensures Valid()
      ensures r == if convex || |points| < 3 then points else ConvexHull(points)
      ensures forall k :: 0 <= k < |r| ==> r[k] in points
      ensures points == old(points) && convex == old(convex) && simple == old(simple)
      ensures centroid == old(centroid) && signedArea == old(signedArea)
      ensures hull == if convex || |points| < 3 then old(hull) else Some(r)
    {
      if convex || |points| < 3 {
        return points;
      }
      if hull.Some? {
        r := hull.value;
      } else if |points| == 3 {
        r := points;
        hull := Some(r);
      } else {
        var s := SortPoints(points);
        var upper := UpperLoop(s);
        var lower := LowerLoop(s);
        lower := lower[..|lower| - 1];
        assert lower[1..] == LowerChain(Det, s, 0)[1..|LowerChain(Det, s, 0)| - 1];
        r := upper + lower[1..];
        hull := Some(r);
      }
      forall k | 0 <= k < |r|
        ensures r[k] in points
      {
        HullFromInput(points, k);
      }
    }

    /** isConvex: flagged convex, or the hull has as many vertices as the
        polygon. */
    method IsConvex() returns (r: bool)
      requires Valid()
      modifies this
      ensures Valid()
      ensures r == (old(convex) || |points| < 3 || UInt(|ConvexHull(points)|) == UInt(|points|))
      ensures old(convex) ==> r && hull == old(hull)
      ensures points == old(points) && convex == old(convex) && simple == old(simple)
      ensures centroid == old(centroid) && signedArea == old(signedArea)
    {
      if convex {
        return true;
      }
      var h := GetConvexHull();
      r := UInt(|h|) == NumPoints();
    }

    /** pointInPolygon: false outside the bounding box of the vertices,
        otherwise whether the ray to the right crosses an odd number of
        edges. */
    method PointInPolygon(p: IPoint) returns (r: bool)
      requires IsLong(p.x) && IsLong(p.y)
      requires forall i :: 0 <= i < |points| ==> IsLong(points[i].x) && IsLong(points[i].y)
      ensures r == PointIn(points, p)
    {
      var minX, maxX, minY, maxY, ix, ax, iy, ay := Bounds(points);
      BoxTest(points, p, minX, maxX, minY, maxY, ix, ax, iy, ay);
      if p.x < minX || p.x > maxX || p.y < minY || p.y > maxY {
        return false;
      }
      r := Pnpoly(points, p);
      ParityIsOdd(EdgeCrossings(points, p), |points|);
    }
  }

  // ---------------------------------------------------------------------
  // The loops of pointInPolygon

  /** The bounding-box loop: the least and greatest coordinates, starting
      from LONG_MAX and LONG_MIN; ix, ax, iy and ay are vertices where they
      are attained. */
  method Bounds(pts: seq<IPoint>) returns (minX: int, maxX: int, minY: int, maxY: int,
                                           ghost ix: nat, ghost ax: nat, ghost iy: nat, ghost ay: nat)
    ensures forall k :: 0 <= k < |pts| ==> minX <= pts[k].x <= maxX && minY <= pts[k].y <= maxY
    ensures pts == [] ==> minX == LongMax && minY == LongMax && maxX == LongMin && maxY == LongMin
    ensures pts != [] ==> ix < |pts| && ax < |pts| && iy < |pts| && ay < |pts|
    ensures pts != [] ==> (pts[ix].x == minX || minX == LongMax) && (pts[ax].x == maxX || maxX == LongMin)
    ensures pts != [] ==> (pts[iy].y == minY || minY == LongMax) && (pts[ay].y == maxY || maxY == LongMin)
  {
    minX, minY := LongMax, LongMax;
    maxX, maxY := LongMin, LongMin;
    ix, ax, iy, ay := 0, 0, 0, 0;
    var i := 0;
    while i < |pts|
      invariant 0 <= i <= |pts|
      invariant forall k :: 0 <= k < i ==> minX <= pts[k].x <= maxX && minY <= pts[k].y <= maxY
      invariant i == 0 ==> minX == LongMax && minY == LongMax && maxX == LongMin && maxY == LongMin
      invariant pts != [] ==> ix < |pts| && ax < |pts| && iy < |pts| && ay < |pts|
      invariant pts != [] ==> (pts[ix].x == minX || minX == LongMax) && (pts[ax].x == maxX || maxX == LongMin)
      invariant pts != [] ==> (pts[iy].y == minY || minY == LongMax) && (pts[ay].y == maxY || maxY == LongMin)
    {
      if pts[i].x < minX {
        minX, ix := pts[i].x, i;
      }
      if pts[i].x > maxX {
        maxX, ax := pts[i].x, i;
      }
      if pts[i].y < minY {
        minY, iy := pts[i].y, i;
      }
      if pts[i].y > maxY {
        maxY, ay := pts[i].y, i;
      }
      i := i + 1;
    }
  }

  /** For long64 coordinates, the source's comparison with the bounds is
      the test that p lies outside the box of the vertices. */
  lemma BoxTest(pts: seq<IPoint>, p: IPoint, minX: int, maxX: int, minY: int, maxY: int,
                ix: nat, ax: nat, iy: nat, ay: nat)
    requires IsLong(p.x) && IsLong(p.y)
    requires forall i :: 0 <= i < |pts| ==> IsLong(pts[i].x) && IsLong(pts[i].y)
    requires forall k :: 0 <= k < |pts| ==> minX <= pts[k].x <= maxX && minY <= pts[k].y <= maxY
    requires pts == [] ==> minX == LongMax && minY == LongMax && maxX == LongMin && maxY == LongMin
    requires pts != [] ==> ix < |pts| && ax < |pts| && iy < |pts| && ay < |pts|
    requires pts != [] ==> (pts[ix].x == minX || minX == LongMax) && (pts[ax].x == maxX || maxX == LongMin)
    requires pts != [] ==> (pts[iy].y == minY || minY == LongMax) && (pts[ay].y == maxY || maxY == LongMin)
    ensures (p.x < minX || p.x > maxX || p.y < minY || p.y > maxY) <==> OutsideBox(pts, p)
  {
    if pts != [] {
      assert LongMin < minX ==> minX == pts[ix].x;
    }
  }

  /** The PNPOLY loop: c toggled at every edge the ray crosses; j trails i
      around the polygon. */
  method Pnpoly(pts: seq<IPoint>, p: IPoint) returns (c: bool)
    ensures c == Parity(EdgeCrossings(pts, p), |pts|)
  {
    ghost var flags := EdgeCrossings(pts, p);
    c := false;
    var i := 0;
    var j := |pts| - 1;
    while i < |pts|
      invariant 0 <= i <= |pts|
      invariant i > 0 ==> j == i - 1
      invariant i == 0 ==> j == |pts| - 1
      invariant c == Parity(flags, i)
    {
      if (pts[i].y > p.y) != (pts[j].y > p.y) &&
         p.x < TruncDiv((pts[j].x - pts[i].x) * (p.y - pts[i].y), pts[j].y - pts[i].y) + pts[i].x
      {
        c := !c;
      }
      j := i;
      i := i + 1;
    }
  }

  /** isConvex of the unflagged kite: with the hull as written the vertex
      counts differ, so the source answers false; with the corrected hull
      they agree, so the model answers true. */
  lemma KiteIsConvex()
    ensures UInt(|HullAsWritten(Kite)|) != UInt(|Kite|)
    ensures UInt(|ConvexHull(Kite)|) == UInt(|Kite|)
  {
    KiteLosesVertex();
    KiteKeepsVertex();
  }
}
