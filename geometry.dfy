/** Integer points and the polygon algorithms of Geometry.h and
    Geometry.cpp: point comparison, the counter-clockwise test, the
    monotone-chain convex hull and the PNPOLY point-in-polygon test.
    Coordinates are long64 in the source; here they are unbounded integers,
    and the only overflow modelled is the conversion of the determinant to
    int in counterClockwise. */
module Geometry {
  import opened Seqs

  /** IPoint; the default constructor gives the origin. */
  datatype IPoint = IPoint(x: int, y: int)

  const Origin := IPoint(0, 0)

  /** IPoint::operator==: both coordinates equal, which is equality of
      the points. */
  function Equal(a: IPoint, b: IPoint): (r: bool)
    ensures r <==> a == b
  {
    a.x == b.x && a.y == b.y
  }

  /** IPoint::operator!=: the negation of ==. */
  function NotEqual(a: IPoint, b: IPoint): (r: bool)
    ensures r <==> a != b
  {
    !Equal(a, b)
  }

  /** IPoint::operator<: x first, y to break a tie. */
  function Less(a: IPoint, b: IPoint): bool
  {
    if a.x != b.x then a.x < b.x else a.y < b.y
  }

  /** IPoint::null: the point is the origin. */
  function Null(p: IPoint): (r: bool)
    ensures r <==> p == Origin
  {
    p.x == 0 && p.y == 0
  }

  /** < is a strict total order consistent with ==: exactly one of a < b,
      b < a and a == b holds, and < is transitive. */
  lemma LessTotal(a: IPoint, b: IPoint)
    ensures !Less(a, a)
    ensures Less(a, b) ==> !Less(b, a)
    ensures Less(a, b) || Less(b, a) || a == b
  {
  }

  lemma LessTransitive(a: IPoint, b: IPoint, c: IPoint)
    requires Less(a, b) && Less(b, c)
    ensures Less(a, c)
  {
  }

  // ---------------------------------------------------------------------
  // The counter-clockwise test

  /** The 2x2 determinant of (p2 - p1, p3 - p1): twice the signed area of
      the triangle, positive for a counter-clockwise turn. */
  function Det(p1: IPoint, p2: IPoint, p3: IPoint): int
  {
    (p2.x - p1.x) * (p3.y - p1.y) - (p2.y - p1.y) * (p3.x - p1.x)
  }

  const IntMin := -0x8000_0000
  const Word := 0x1_0000_0000

  /** Conversion of a long64 value to a 32-bit int: the value modulo 2^32,
      read as two's complement. */
  function ToInt(v: int): (r: int)
    ensures IntMin <= r < -IntMin
    ensures (r - v) % Word == 0
    ensures IntMin <= v < -IntMin ==> r == v
  {
    (v - IntMin) % Word + IntMin
  }

  /** counterClockwise as written: the determinant, computed on long64 and
      returned as int. */
  function CounterClockwise(p1: IPoint, p2: IPoint, p3: IPoint): (r: int)
    ensures IntMin <= r < -IntMin
    ensures IntMin <= Det(p1, p2, p3) < -IntMin ==> r == Det(p1, p2, p3)
  {
    ToInt(Det(p1, p2, p3))
  }

  /** Exchanging p2 and p3 negates the determinant. */
  lemma DetSwap(p1: IPoint, p2: IPoint, p3: IPoint)
    ensures Det(p1, p3, p2) == -Det(p1, p2, p3)
  {
  }

  /** ... and so the test, as long as the determinant fits in an int. */
  lemma CounterClockwiseSwap(p1: IPoint, p2: IPoint, p3: IPoint)
    requires IntMin < Det(p1, p2, p3) < -IntMin
    ensures CounterClockwise(p1, p3, p2) == -CounterClockwise(p1, p2, p3)
  {
    DetSwap(p1, p2, p3);
  }

  /** The conversion to int loses the sign of large determinants: a
      counter-clockwise triangle with legs of 65536 is reported collinear. */
  lemma CounterClockwiseWraps()
    ensures Det(Origin, IPoint(65536, 0), IPoint(0, 65536)) == Word
    ensures CounterClockwise(Origin, IPoint(65536, 0), IPoint(0, 65536)) == 0
  {
  }

  /** A turn test: Det, or CounterClockwise as the source computes it. */
  type TurnTest = (IPoint, IPoint, IPoint) -> int

  // ---------------------------------------------------------------------
  // Sorting (std::sort with IPoint::operator<)

  /** Not greater: a <= b in the order of <. */
  predicate LessEq(a: IPoint, b: IPoint)
  {
    !Less(b, a)
  }

  predicate Sorted(s: seq<IPoint>)
  {
    forall i :: 0 <= i < |s| - 1 ==> LessEq(s[i], s[i + 1])
  }

  /** p inserted before the first entry of s not less than it. */
  function InsertSorted(p: IPoint, s: seq<IPoint>): (r: seq<IPoint>)
    ensures |r| == |s| + 1
  {
    if s == [] then [p]
    else if Less(s[0], p) then [s[0]] + InsertSorted(p, s[1..])
    else [p] + s
  }

  /** Insertion into a sorted sequence keeps it sorted and adds p to its
      elements. */
  lemma {:induction false} InsertSortedSorts(p: IPoint, s: seq<IPoint>)
    requires Sorted(s)
    ensures Sorted(InsertSorted(p, s))
    ensures multiset(InsertSorted(p, s)) == multiset(s) + multiset{p}
    ensures s != [] ==> InsertSorted(p, s)[0] == s[0] || InsertSorted(p, s)[0] == p
  {
    if s != [] {
      assert s == [s[0]] + s[1..];
      if Less(s[0], p) {
        InsertSortedSorts(p, s[1..]);
        var rest := InsertSorted(p, s[1..]);
        assert InsertSorted(p, s) == [s[0]] + rest;
        if s[1..] != [] {
          assert rest[0] == s[1] || rest[0] == p;
        }
      }
    }
  }

  /** The points in ascending order: std::sort with IPoint::operator<. */
  function SortPoints(s: seq<IPoint>): (r: seq<IPoint>)
    ensures |r| == |s|
  {
    if s == [] then []
    else InsertSorted(s[0], SortPoints(s[1..]))
  }

  /** The sorted points are a sorted permutation of the input. */
  lemma {:induction false} SortPointsSorts(s: seq<IPoint>)
    ensures Sorted(SortPoints(s)) && multiset(SortPoints(s)) == multiset(s)
  {
    if s != [] {
      assert s == [s[0]] + s[1..];
      SortPointsSorts(s[1..]);
      InsertSortedSorts(s[0], SortPoints(s[1..]));
    }
  }

  // ---------------------------------------------------------------------
  // The monotone chains

  /** Every turn of the chain is counter-clockwise or straight: no vertex
      makes a clockwise turn. */
  predicate Turns(turn: TurnTest, chain: seq<IPoint>)
  {
    forall k :: 0 <= k < |chain| - 2 ==> turn(chain[k + 2], chain[k + 1], chain[k]) >= 0
  }

  /** Every turn but the one at the newest point is counter-clockwise or
      straight. */
  predicate TurnsBut(turn: TurnTest, chain: seq<IPoint>)
  {
    forall k :: 0 <= k < |chain| - 3 ==> turn(chain[k + 2], chain[k + 1], chain[k]) >= 0
  }

  /** The inner while loop of either chain: while the last three points
      turn clockwise, erase the middle one. The first and last points stay. */
  function PopRight(turn: TurnTest, chain: seq<IPoint>): (r: seq<IPoint>)
    ensures |chain| >= 2 ==> |r| >= 2 && r[0] == chain[0] && r[|r| - 1] == chain[|chain| - 1]
    ensures |r| <= |chain|
    decreases |chain|
  {
    var n := |chain|;
    if n > 2 && turn(chain[n - 1], chain[n - 2], chain[n - 3]) < 0 then
      PopRight(turn, chain[..n - 2] + [chain[n - 1]])
    else
      chain
  }

  /** Erasing the middle of the last three points keeps a chain turning
      except at its newest point. */
  lemma EraseTurnsBut(turn: TurnTest, chain: seq<IPoint>)
    requires |chain| > 2 && TurnsBut(turn, chain)
    ensures TurnsBut(turn, chain[..|chain| - 2] + [chain[|chain| - 1]])
  {
    var n := |chain|;
    var shorter := chain[..n - 2] + [chain[n - 1]];
    forall k | 0 <= k < |shorter| - 3
      ensures turn(shorter[k + 2], shorter[k + 1], shorter[k]) >= 0
    {
      assert shorter[k + 2] == chain[k + 2] && shorter[k + 1] == chain[k + 1] && shorter[k] == chain[k];
    }
  }

  /** A chain turning except at its newest point, which does not turn
      clockwise either, is turning. */
  lemma CloseTurns(turn: TurnTest, chain: seq<IPoint>)
    requires TurnsBut(turn, chain)
    requires |chain| > 2 ==> turn(chain[|chain| - 1], chain[|chain| - 2], chain[|chain| - 3]) >= 0
    ensures Turns(turn, chain)
  {
  }

  /** If the chain was turning except at its newest point, the inner loop
      leaves it turning. */
  lemma {:induction false} PopRightTurns(turn: TurnTest, chain: seq<IPoint>)
    requires TurnsBut(turn, chain)
    ensures Turns(turn, PopRight(turn, chain))
    decreases |chain|
  {
    var n := |chain|;
    if n > 2 && turn(chain[n - 1], chain[n - 2], chain[n - 3]) < 0 {
      var shorter := chain[..n - 2] + [chain[n - 1]];
      EraseTurnsBut(turn, chain);
      PopRightTurns(turn, shorter);
      assert PopRight(turn, chain) == PopRight(turn, shorter);
    } else {
      CloseTurns(turn, chain);
      assert PopRight(turn, chain) == chain;
    }
  }

  /** Every point the inner loop leaves was in the chain. */
  lemma {:induction false} PopRightFrom(turn: TurnTest, chain: seq<IPoint>, j: nat) returns (k: nat)
    requires j < |PopRight(turn, chain)|
    ensures k < |chain| && PopRight(turn, chain)[j] == chain[k]
    decreases |chain|
  {
    var n := |chain|;
    if n > 2 && turn(chain[n - 1], chain[n - 2], chain[n - 3]) < 0 {
      var shorter := chain[..n - 2] + [chain[n - 1]];
      k := PopRightFrom(turn, shorter, j);
      if k == n - 2 {
        k := n - 1;
      }
    } else {
      k := j;
    }
  }

  /** The outer loop of either chain: push pts[i], pts[i + 1], ... in
      turn, each followed by the inner loop. */
  function Scan(turn: TurnTest, chain: seq<IPoint>, pts: seq<IPoint>, i: nat): (r: seq<IPoint>)
    requires |chain| >= 2
    ensures |r| >= 2
    decreases |pts| - i
  {
    if i >= |pts| then chain
    else Scan(turn, PopRight(turn, chain + [pts[i]]), pts, i + 1)
  }

  /** The scan keeps the chain's first point and ends at the last point
      pushed. */
  lemma {:induction false} ScanEnds(turn: TurnTest, chain: seq<IPoint>, pts: seq<IPoint>, i: nat)
    requires |chain| >= 2
    ensures var r := Scan(turn, chain, pts, i);
      r[0] == chain[0] &&
      r[|r| - 1] == if i < |pts| then pts[|pts| - 1] else chain[|chain| - 1]
    decreases |pts| - i
  {
    if i < |pts| {
      ScanEnds(turn, PopRight(turn, chain + [pts[i]]), pts, i + 1);
    }
  }

  /** Pushing a point onto a turning chain leaves it turning except at the
      new point. */
  lemma PushTurns(turn: TurnTest, chain: seq<IPoint>, p: IPoint)
    requires Turns(turn, chain)
    ensures TurnsBut(turn, chain + [p])
  {
    var pushed := chain + [p];
    assert forall j :: 0 <= j < |chain| ==> pushed[j] == chain[j];
  }

  /** The scan keeps a turning chain turning. */
  lemma {:induction false} ScanTurns(turn: TurnTest, chain: seq<IPoint>, pts: seq<IPoint>, i: nat)
    requires |chain| >= 2 && Turns(turn, chain)
    ensures Turns(turn, Scan(turn, chain, pts, i))
    decreases |pts| - i
  {
    if i < |pts| {
      var pushed := chain + [pts[i]];
      var popped := PopRight(turn, pushed);
      PushTurns(turn, chain, pts[i]);
      PopRightTurns(turn, pushed);
      ScanTurns(turn, popped, pts, i + 1);
      assert Scan(turn, chain, pts, i) == Scan(turn, popped, pts, i + 1);
    } else {
      assert Scan(turn, chain, pts, i) == chain;
    }
  }

  /** Every point of the scan comes from src, when the chain and the points
      pushed do. */
  lemma {:induction false} ScanFrom(turn: TurnTest, chain: seq<IPoint>, pts: seq<IPoint>, i: nat, src: seq<IPoint>, j: nat)
    requires |chain| >= 2
    requires forall m :: 0 <= m < |chain| ==> chain[m] in src
    requires forall m :: 0 <= m < |pts| ==> pts[m] in src
    requires j < |Scan(turn, chain, pts, i)|
    ensures Scan(turn, chain, pts, i)[j] in src
    decreases |pts| - i
  {
    if i >= |pts| {
      assert Scan(turn, chain, pts, i)[j] == chain[j];
    } else {
      var pushed := chain + [pts[i]];
      var popped := PopRight(turn, pushed);
      forall m | 0 <= m < |popped|
        ensures popped[m] in src
      {
        var k := PopRightFrom(turn, pushed, m);
        assert pushed[k] in src;
      }
      ScanFrom(turn, popped, pts, i + 1, src, j);
    }
  }

  /** The upper chain of the sorted points s: s[0] and s[1], then s[2] up
      to s[n - 1] pushed. */
  function UpperChain(turn: TurnTest, s: seq<IPoint>): seq<IPoint>
    requires |s| >= 3
  {
    Scan(turn, [s[0], s[1]], s, 2)
  }

  /** The points the lower chain pushes, s[n - 3] down to s[lo]: Geometry.cpp
      line 60 stops at lo = 1; the algorithm needs lo = 0. */
  function Downward(s: seq<IPoint>, lo: nat): (r: seq<IPoint>)
    requires lo <= |s| - 2
    ensures |r| == |s| - 2 - lo
    ensures forall m :: 0 <= m < |r| ==> r[m] == s[|s| - 3 - m]
  {
    Reverse(s[lo..|s| - 2])
  }

  /** The lower chain of the sorted points s: s[n - 1] and s[n - 2], then
      s[n - 3] down to s[lo] pushed. */
  function LowerChain(turn: TurnTest, s: seq<IPoint>, lo: nat): seq<IPoint>
    requires |s| >= 3 && lo <= |s| - 2
  {
    Scan(turn, [s[|s| - 1], s[|s| - 2]], Downward(s, lo), 0)
  }

  /** Both chains joined: the lower chain without its first point (the
      last of the upper chain) and without its last. */
  function Joined(upper: seq<IPoint>, lower: seq<IPoint>): seq<IPoint>
    requires |lower| >= 2
  {
    upper + lower[1..|lower| - 1]
  }

  /** The hull of the sorted points s: both chains joined. */
  function SortedHull(turn: TurnTest, s: seq<IPoint>, lo: nat): seq<IPoint>
    requires |s| >= 3 && lo <= |s| - 2
  {
    Joined(UpperChain(turn, s), LowerChain(turn, s, lo))
  }

  /** getConvexHull of four or more points as written: the turn test is
      counterClockwise and the lower chain stops at s[1]. */
  function HullAsWritten(pts: seq<IPoint>): seq<IPoint>
    requires |pts| >= 4
  {
    SortedHull(CounterClockwise, SortPoints(pts), 1)
  }

  /** The convex hull getConvexHull computes, with the exact turn test and
      the lower chain run down to s[0]; three points are their own hull. */
  function ConvexHull(pts: seq<IPoint>): seq<IPoint>
    requires |pts| >= 3
  {
    if |pts| == 3 then pts
    else SortedHull(Det, SortPoints(pts), 0)
  }

  /** Membership survives sorting. */
  lemma SortedHas(pts: seq<IPoint>, v: IPoint)
    requires v in SortPoints(pts)
    ensures v in pts
  {
    SortPointsSorts(pts);
    assert v in multiset(SortPoints(pts));
  }

  /** Every vertex of the chains comes from the sorted points. */
  lemma SortedHullFrom(s: seq<IPoint>, k: nat)
    requires |s| >= 3 && k < |SortedHull(Det, s, 0)|
    ensures SortedHull(Det, s, 0)[k] in s
  {
    var n := |s|;
    var upper, lower := UpperChain(Det, s), LowerChain(Det, s, 0);
    assert [s[0], s[1]][0] in s && [s[0], s[1]][1] in s;
    assert [s[n - 1], s[n - 2]][0] in s && [s[n - 1], s[n - 2]][1] in s;
    if k < |upper| {
      ScanFrom(Det, [s[0], s[1]], s, 2, s, k);
      assert SortedHull(Det, s, 0)[k] == upper[k];
    } else {
      var down := Downward(s, 0);
      assert forall m :: 0 <= m < |down| ==> down[m] == s[n - 3 - m];
      ScanFrom(Det, [s[n - 1], s[n - 2]], down, 0, s, k - |upper| + 1);
      assert SortedHull(Det, s, 0)[k] == lower[k - |upper| + 1];
    }
  }

  /** Every hull vertex is one of the polygon's vertices. */
  lemma HullFromInput(pts: seq<IPoint>, k: nat)
    requires |pts| >= 3 && k < |ConvexHull(pts)|
    ensures ConvexHull(pts)[k] in pts
  {
    if |pts| > 3 {
      SortedHullFrom(SortPoints(pts), k);
      SortedHas(pts, ConvexHull(pts)[k]);
    }
  }

  /** The upper chain runs from the least point to the greatest, and the
      lower chain back to the least, which Joined leaves out as it already
      starts the hull. */
  lemma ChainEnds(s: seq<IPoint>)
    requires |s| >= 3
    ensures var upper, lower := UpperChain(Det, s), LowerChain(Det, s, 0);
      upper[0] == s[0] && upper[|upper| - 1] == s[|s| - 1] &&
      lower[0] == s[|s| - 1] && lower[|lower| - 1] == s[0]
  {
    var n := |s|;
    ScanEnds(Det, [s[0], s[1]], s, 2);
    ScanEnds(Det, [s[n - 1], s[n - 2]], Downward(s, 0), 0);
  }

  /** No vertex of either chain turns clockwise, whatever the points. */
  lemma ChainsTurn(s: seq<IPoint>)
    requires |s| >= 3
    ensures Turns(Det, UpperChain(Det, s)) && Turns(Det, LowerChain(Det, s, 0))
  {
    var n := |s|;
    var up, down := [s[0], s[1]], [s[n - 1], s[n - 2]];
    assert Turns(Det, up) && Turns(Det, down);
    ScanTurns(Det, up, s, 2);
    ScanTurns(Det, down, Downward(s, 0), 0);
  }

  /** As written, the lower chain of four or more points ends at s[1], not
      s[0], so Joined drops s[1] rather than the duplicate of s[0]. */
  lemma LowerAsWrittenEnd(s: seq<IPoint>)
    requires |s| >= 4
    ensures var lower := LowerChain(CounterClockwise, s, 1); lower[|lower| - 1] == s[1]
  {
    ScanEnds(CounterClockwise, [s[|s| - 1], s[|s| - 2]], Downward(s, 1), 0);
  }

  /** The kite of KiteLosesVertex, and the same four points sorted. */
  const Kite := [IPoint(0, 0), IPoint(1, -10), IPoint(2, 0), IPoint(1, 5)]
  const SortedKite := [IPoint(0, 0), IPoint(1, -10), IPoint(1, 5), IPoint(2, 0)]

  /** The last three points of the kite sorted. */
  lemma KiteTailSorts()
    ensures SortPoints(Kite[1..]) == [IPoint(1, -10), IPoint(1, 5), IPoint(2, 0)]
  {
    var b, c, d := IPoint(1, -10), IPoint(2, 0), IPoint(1, 5);
    assert [d][1..] == [];
    assert SortPoints([d]) == [d];
    assert [c, d][1..] == [d];
    assert InsertSorted(c, [d]) == [d, c] by {
      assert [d][1..] == [];
    }
    assert SortPoints([c, d]) == [d, c];
    assert [b, c, d][1..] == [c, d];
    assert InsertSorted(b, [d, c]) == [b, d, c];
    assert Kite[1..] == [b, c, d];
  }

  lemma KiteSorts()
    ensures SortPoints(Kite) == SortedKite
  {
    KiteTailSorts();
    var rest := [IPoint(1, -10), IPoint(1, 5), IPoint(2, 0)];
    assert SortPoints(Kite) == InsertSorted(Kite[0], SortPoints(Kite[1..]));
    assert InsertSorted(IPoint(0, 0), rest) == [IPoint(0, 0)] + rest;
    assert [IPoint(0, 0)] + rest == SortedKite;
  }

  /** The kite's upper chain, for a turn test that sees (1, -10) turn
      clockwise and (1, 5) not. */
  lemma KiteUpper(turn: TurnTest)
    requires turn(IPoint(1, 5), IPoint(1, -10), IPoint(0, 0)) < 0
    requires turn(IPoint(2, 0), IPoint(1, 5), IPoint(0, 0)) >= 0
    ensures UpperChain(turn, SortedKite) == [IPoint(0, 0), IPoint(1, 5), IPoint(2, 0)]
  {
    var s := SortedKite;
    var up := [IPoint(0, 0), IPoint(1, 5)];
    assert PopRight(turn, [IPoint(0, 0), IPoint(1, -10), IPoint(1, 5)]) == PopRight(turn, up);
    assert PopRight(turn, up + [IPoint(2, 0)]) == up + [IPoint(2, 0)];
  }

  /** The lower chain starts from (2, 0) and (1, 5); pushing (1, -10)
      pops (1, 5). As written the chain stops there. */
  lemma KiteLower(turn: TurnTest)
    requires turn(IPoint(1, -10), IPoint(1, 5), IPoint(2, 0)) < 0
    ensures LowerChain(turn, SortedKite, 1) == [IPoint(2, 0), IPoint(1, -10)]
  {
    var low := [IPoint(2, 0), IPoint(1, -10)];
    var down := [IPoint(1, -10)];
    assert Downward(SortedKite, 1) == down;
    assert [IPoint(2, 0), IPoint(1, 5)] + [down[0]] == [IPoint(2, 0), IPoint(1, 5), IPoint(1, -10)];
    assert PopRight(turn, [IPoint(2, 0), IPoint(1, 5), IPoint(1, -10)]) == PopRight(turn, low);
    assert Scan(turn, [IPoint(2, 0), IPoint(1, 5)], down, 0) == Scan(turn, low, down, 1);
  }

  /** Run down to (0, 0), the lower chain keeps (1, -10). */
  lemma KiteLowerFull()
    ensures LowerChain(Det, SortedKite, 0) == [IPoint(2, 0), IPoint(1, -10), IPoint(0, 0)]
  {
    var low := [IPoint(2, 0), IPoint(1, -10)];
    var down := [IPoint(1, -10), IPoint(0, 0)];
    assert Downward(SortedKite, 0) == down;
    assert [IPoint(2, 0), IPoint(1, 5)] + [down[0]] == [IPoint(2, 0), IPoint(1, 5), IPoint(1, -10)];
    assert Det(IPoint(1, -10), IPoint(1, 5), IPoint(2, 0)) < 0;
    assert PopRight(Det, [IPoint(2, 0), IPoint(1, 5), IPoint(1, -10)]) == PopRight(Det, low);
    assert Scan(Det, [IPoint(2, 0), IPoint(1, 5)], down, 0) == Scan(Det, low, down, 1);
    assert Det(IPoint(0, 0), IPoint(1, -10), IPoint(2, 0)) >= 0;
    assert PopRight(Det, low + [IPoint(0, 0)]) == low + [IPoint(0, 0)];
    assert Scan(Det, low, down, 1) == Scan(Det, low + [IPoint(0, 0)], down, 2);
  }

  /** The hull of the sorted kite as written: the lower chain stops after
      (1, -10) and Joined then drops it. */
  lemma SortedKiteAsWritten()
    ensures SortedHull(CounterClockwise, SortedKite, 1) == [IPoint(0, 0), IPoint(1, 5), IPoint(2, 0)]
  {
    assert CounterClockwise(IPoint(1, 5), IPoint(1, -10), IPoint(0, 0)) < 0;
    assert CounterClockwise(IPoint(2, 0), IPoint(1, 5), IPoint(0, 0)) >= 0;
    assert CounterClockwise(IPoint(1, -10), IPoint(1, 5), IPoint(2, 0)) < 0;
    KiteUpper(CounterClockwise);
    KiteLower(CounterClockwise);
    var low := [IPoint(2, 0), IPoint(1, -10)];
    assert low[1..|low| - 1] == [];
  }

  /** The hull of the sorted kite with the lower chain run down to (0, 0). */
  lemma SortedKiteHull()
    ensures SortedHull(Det, SortedKite, 0) == [IPoint(0, 0), IPoint(1, 5), IPoint(2, 0), IPoint(1, -10)]
  {
    assert Det(IPoint(1, 5), IPoint(1, -10), IPoint(0, 0)) < 0;
    assert Det(IPoint(2, 0), IPoint(1, 5), IPoint(0, 0)) >= 0;
    KiteUpper(Det);
    KiteLowerFull();
    var low := [IPoint(2, 0), IPoint(1, -10), IPoint(0, 0)];
    assert low[1..|low| - 1] == [IPoint(1, -10)];
  }

  /** A convex kite whose lowest vertex (1, -10) the hull as written loses:
      it reports three vertices for a convex polygon of four, so isConvex()
      answers false. */
  lemma KiteLosesVertex()
    ensures HullAsWritten(Kite) == [IPoint(0, 0), IPoint(1, 5), IPoint(2, 0)]
  {
    KiteSorts();
    SortedKiteAsWritten();
  }

  /** The corrected hull keeps all four vertices of the kite. */
  lemma KiteKeepsVertex()
    ensures ConvexHull(Kite) == [IPoint(0, 0), IPoint(1, 5), IPoint(2, 0), IPoint(1, -10)]
  {
    KiteSorts();
    SortedKiteHull();
  }

  // ---------------------------------------------------------------------
  // PNPOLY

  /** p lies outside the box spanned by the vertices (always, for no
      vertices). */
  predicate OutsideBox(pts: seq<IPoint>, p: IPoint)
  {
    (forall i :: 0 <= i < |pts| ==> p.x < pts[i].x) ||
    (forall i :: 0 <= i < |pts| ==> p.x > pts[i].x) ||
    (forall i :: 0 <= i < |pts| ==> p.y < pts[i].y) ||
    (forall i :: 0 <= i < |pts| ==> p.y > pts[i].y)
  }

  /** The vertex before vertex i, cyclically: the other end of edge i. */
  function Prev(n: nat, i: nat): nat
    requires i < n
  {
    if i == 0 then n - 1 else i - 1
  }

  /** The horizontal ray from p to the right crosses the edge from a to b:
      the edge straddles p's row (so a.y != b.y), and p lies left of the
      edge's x at that row, computed with long64 division, which truncates
      toward zero. */
  predicate Crosses(a: IPoint, b: IPoint, p: IPoint)
  {
    ((a.y > p.y) != (b.y > p.y)) &&
    p.x < TruncDiv((b.x - a.x) * (p.y - a.y), b.y - a.y) + a.x
  }

  /** For each edge i, whether the ray from p crosses it. */
  function EdgeCrossings(pts: seq<IPoint>, p: IPoint): (r: seq<bool>)
    ensures |r| == |pts|
    ensures forall i :: 0 <= i < |pts| ==> r[i] == Crosses(pts[i], pts[Prev(|pts|, i)], p)
  {
    seq(|pts|, i requires 0 <= i < |pts| => Crosses(pts[i], pts[Prev(|pts|, i)], p))
  }

  /** The flag c of the PNPOLY loop after the first k edges: toggled at
      every crossing. */
  function Parity(flags: seq<bool>, k: nat): bool
    requires k <= |flags|
  {
    if k == 0 then false else Parity(flags, k - 1) != flags[k - 1]
  }

  /** The number of crossings among the first k edges. */
  function Crossings(flags: seq<bool>, k: nat): nat
    requires k <= |flags|
  {
    if k == 0 then 0 else Crossings(flags, k - 1) + if flags[k - 1] then 1 else 0
  }

  /** Toggling the flag once per crossing leaves it set exactly when the
      ray crosses an odd number of edges. */
  lemma {:induction false} ParityIsOdd(flags: seq<bool>, k: nat)
    requires k <= |flags|
    ensures Parity(flags, k) <==> Crossings(flags, k) % 2 == 1
  {
    if k > 0 {
      ParityIsOdd(flags, k - 1);
    }
  }

  /** pointInPolygon: false outside the vertices' bounding box, otherwise
      the parity of the ray's crossings. */
  predicate PointIn(pts: seq<IPoint>, p: IPoint)
  {
    !OutsideBox(pts, p) && Crossings(EdgeCrossings(pts, p), |pts|) % 2 == 1
  }

  /** A square holds its centre and not a point beside it. */
  lemma SquareHoldsCentre()
    ensures var square := [IPoint(0, 0), IPoint(4, 0), IPoint(4, 4), IPoint(0, 4)];
      PointIn(square, IPoint(2, 2)) && !PointIn(square, IPoint(5, 2))
  {
    var square := [IPoint(0, 0), IPoint(4, 0), IPoint(4, 4), IPoint(0, 4)];
    var c := IPoint(2, 2);
    assert !Crosses(square[0], square[3], c);
    assert !Crosses(square[1], square[0], c);
    assert Crosses(square[2], square[1], c);
    assert !Crosses(square[3], square[2], c);
    var flags := EdgeCrossings(square, c);
    assert !flags[0] && !flags[1] && flags[2] && !flags[3];
    assert Crossings(flags, 1) == 0;
    assert Crossings(flags, 2) == 0;
    assert Crossings(flags, 3) == 1;
    assert Crossings(flags, 4) == 1;
    assert !OutsideBox(square, c) by {
      assert square[0].x <= 2 <= square[1].x && square[0].y <= 2 <= square[2].y;
    }
  }
}
