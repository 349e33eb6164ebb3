/** CellSpacePartition<T>: a fixed uniform grid of cells over a width x height
    area centred on the origin. Each cell keeps a list of members; a query
    copies the members of a rectangle of cells into a preallocated result
    buffer and hands them out through a cursor.

    Positions become cell indices through float-to-int truncations and
    integer divisions that truncate toward zero, and the unsigned index
    arithmetic wraps modulo 2^32. */
module CellSpace {
  import opened Seqs
  import opened Partition
  import opened MathUtil

  /** Unsigned 32-bit arithmetic wraps modulo this. */
  const Word: int := 0x1_0000_0000

  /** The grid geometry fixed at construction. */
  datatype Layout = Layout(width: real, height: real, numCellsX: nat, numCellsY: nat,
                           cellWidth: real, cellHeight: real)

  /** The cell size is the area divided by the number of cells on each axis. */
  function MakeLayout(w: real, h: real, cellsx: nat, cellsy: nat): (g: Layout)
    requires cellsx > 0 && cellsy > 0
    ensures g.numCellsX == cellsx && g.numCellsY == cellsy && g.width == w && g.height == h
    ensures g.cellWidth * cellsx as real == w && g.cellHeight * cellsy as real == h
  {
    Layout(w, h, cellsx, cellsy, w / cellsx as real, h / cellsy as real)
  }

  /** The truncated cell sizes are the divisors of positionToIndex, so they
      must not be zero. */
  predicate Indexable(g: Layout)
  {
    Trunc(g.cellWidth) != 0 && Trunc(g.cellHeight) != 0
  }

  /** The cell a coordinate falls in along one axis of the given extent,
      centred on the origin: the truncated offset from the edge divided by
      the truncated cell size c. */
  function AxisIndex(v: real, extent: real, c: int): int
    requires c != 0
  {
    TruncDiv(Trunc(v + extent * 0.5), c)
  }

  /** The centre of cell q along one axis. */
  function AxisCentre(q: int, size: real, extent: real): real
  {
    (q as real + 0.5) * size - extent * 0.5
  }

  /** The column of a position. */
  function Column(g: Layout, p: Vec2): int
    requires Indexable(g)
  {
    AxisIndex(p.x, g.width, Trunc(g.cellWidth))
  }

  /** The row of a position, likewise from the top edge. */
  function Row(g: Layout, p: Vec2): int
    requires Indexable(g)
  {
    AxisIndex(p.y, g.height, Trunc(g.cellHeight))
  }

  /** positionToIndex as written: the row is scaled by the number of cells
      along y, and the unsigned arithmetic wraps. */
  function PositionToIndex(g: Layout, p: Vec2): (r: nat)
    requires Indexable(g)
    ensures r < Word
  {
    (Row(g, p) * g.numCellsY + Column(g, p)) % Word
  }

  /** The row-major index the constructor lays the cells out in: the row is
      scaled by the number of cells along x. */
  function CellIndex(g: Layout, p: Vec2): (r: nat)
    requires Indexable(g)
    ensures r < Word
  {
    (Row(g, p) * g.numCellsX + Column(g, p)) % Word
  }

  /** The box the constructor gives the cell in column i and row j. */
  function CellBox(g: Layout, i: int, j: int): AABB
  {
    AABB(Vec2(AxisCentre(i, g.cellWidth, g.width), AxisCentre(j, g.cellHeight, g.height)),
         Vec2(g.cellWidth * 0.5, g.cellHeight * 0.5))
  }

  /** Whole-number cell sizes of at least one, and fewer cells than the
      unsigned range. */
  predicate Regular(g: Layout)
  {
    g.numCellsX > 0 && g.numCellsY > 0 && g.numCellsX * g.numCellsY <= Word &&
    g.cellWidth >= 1.0 && g.cellWidth == Trunc(g.cellWidth) as real &&
    g.cellHeight >= 1.0 && g.cellHeight == Trunc(g.cellHeight) as real &&
    g.width == g.numCellsX as real * g.cellWidth && g.height == g.numCellsY as real * g.cellHeight
  }

  /** The half-open area the grid covers. */
  predicate InGrid(g: Layout, p: Vec2)
  {
    -g.width * 0.5 <= p.x < g.width * 0.5 && -g.height * 0.5 <= p.y < g.height * 0.5
  }

  /** Multiplying by a non-negative factor keeps order. */
  lemma MulMonotone(a: int, b: int, n: nat)
    ensures a <= b ==> a * n <= b * n
  {
  }

  /** Division by a positive divisor is unique: q and r are the quotient and
      remainder of q * n + r. */
  lemma DivModOf(q: nat, r: nat, n: nat)
    requires r < n
    ensures (q * n + r) / n == q && (q * n + r) % n == r
  {
    var a := q * n + r;
    var d, m := a / n, a % n;
    assert a == d * n + m && 0 <= m < n;
    MulMonotone(d + 1, q, n);
    MulMonotone(q + 1, d, n);
    assert (d + 1) * n == d * n + n && (q + 1) * n == q * n + n;
  }

  /** One axis of the grid: a coordinate v on an axis of the given extent,
      centred on the origin and cut into count cells of whole size c, falls
      in cell q, the truncated offset from the edge divided by c; q is one
      of the count cells and the closed extent of cell q holds v. */
  lemma AxisCell(v: real, extent: real, size: real, c: nat, count: nat)
    requires c >= 1 && size == c as real && extent == count as real * size && -extent * 0.5 <= v < extent * 0.5
    ensures 0 <= AxisIndex(v, extent, c) < count
    ensures Dist(v, AxisCentre(AxisIndex(v, extent, c), size, extent)) <= size * 0.5
  {
    var x := v + extent * 0.5;
    var a := Trunc(x);
    TruncBelow(x, count, c);
    DivBounds(a, c, count);
    var q := a / c;
    CellSpan(x, a, q, c);
    CentreDist(v, extent, size, q);
  }

  /** The truncated offset from the edge is below the number of cells times
      the cell size. */
  lemma TruncBelow(x: real, count: nat, c: nat)
    requires 0.0 <= x < count as real * c as real
    ensures 0 <= Trunc(x) < count * c
  {
    RealOfProduct(count, c);
  }

  /** Offset x, truncated to a, lies in stretch q of whole size c. */
  lemma CellSpan(x: real, a: int, q: int, c: nat)
    requires a as real <= x < a as real + 1.0 && q * c <= a && a + 1 <= (q + 1) * c
    ensures q as real * c as real <= x <= (q as real + 1.0) * c as real
  {
    RealOfProduct(q, c);
    RealOfProduct(q + 1, c);
  }

  /** A coordinate in stretch q of an axis is within half a cell of the
      centre of cell q. */
  lemma CentreDist(v: real, extent: real, size: real, q: int)
    requires q as real * size <= v + extent * 0.5 <= (q as real + 1.0) * size
    ensures Dist(v, AxisCentre(q, size, extent)) <= size * 0.5
  {
    var m := q as real * size;
    assert (q as real + 1.0) * size == m + size;
    assert (q as real + 0.5) * size == m + 0.5 * size;
  }

  /** Integer products carry over to the reals. */
  lemma RealOfProduct(a: int, b: int)
    ensures (a * b) as real == a as real * b as real
  {
  }

  /** The quotient of a below count * c by c is below count, and a lies in
      the quotient's stretch of c. */
  lemma DivBounds(a: nat, c: nat, count: nat)
    requires c >= 1 && a < count * c
    ensures 0 <= a / c < count && (a / c) * c <= a < (a / c + 1) * c
  {
    var q := a / c;
    assert q * c + a % c == a;
    MulMonotone(count, q, c);
    assert (q + 1) * c == q * c + c;
  }

  /** Row-major indexing: cell (col, row) of an nx x ny grid has an index
      below nx * ny from which division and remainder by nx recover the row
      and the column. */
  lemma RowMajor(row: nat, col: nat, nx: nat, ny: nat)
    requires row < ny && col < nx
    ensures row * nx + col < nx * ny
    ensures (row * nx + col) / nx == row && (row * nx + col) % nx == col
  {
    MulMonotone(row + 1, ny, nx);
    assert (row + 1) * nx == row * nx + nx;
    DivModOf(row, col, nx);
  }

  /** The column of a position inside a regular grid is one of its columns,
      and the box of any cell in that column holds the position's x. */
  lemma ColumnLocates(g: Layout, p: Vec2, row: int)
    requires Regular(g) && InGrid(g, p)
    ensures Indexable(g) && 0 <= Column(g, p) < g.numCellsX
    ensures Dist(p.x, CellBox(g, Column(g, p), row).center.x) <= CellBox(g, Column(g, p), row).half.x
  {
    AxisCell(p.x, g.width, g.cellWidth, Trunc(g.cellWidth), g.numCellsX);
  }

  /** Likewise for the row and y. */
  lemma RowLocates(g: Layout, p: Vec2, col: int)
    requires Regular(g) && InGrid(g, p)
    ensures Indexable(g) && 0 <= Row(g, p) < g.numCellsY
    ensures Dist(p.y, CellBox(g, col, Row(g, p)).center.y) <= CellBox(g, col, Row(g, p)).half.y
  {
    AxisCell(p.y, g.height, g.cellHeight, Trunc(g.cellHeight), g.numCellsY);
  }

  /** The corrected index of a position inside a regular grid names a cell,
      and that cell's box holds the position. */
  lemma CellIndexLocates(g: Layout, p: Vec2)
    requires Regular(g) && InGrid(g, p)
    ensures Indexable(g)
    ensures CellIndex(g, p) < g.numCellsX * g.numCellsY
    ensures Contains(CellBox(g, CellIndex(g, p) % g.numCellsX, CellIndex(g, p) / g.numCellsX), p)
  {
    ColumnLocates(g, p, Row(g, p));
    RowLocates(g, p, Column(g, p));
    RowMajor(Row(g, p), Column(g, p), g.numCellsX, g.numCellsY);
    assert CellIndex(g, p) == Row(g, p) * g.numCellsX + Column(g, p);
  }

  /** On a grid with as many cells along x as along y the index as written
      is the row-major one. */
  lemma SquareGridAgrees(g: Layout, p: Vec2)
    requires Indexable(g) && g.numCellsX == g.numCellsY
    ensures PositionToIndex(g, p) == CellIndex(g, p)
  {
  }

  /** A grid one cell wide and two cells tall, 10 x 20 with 10 x 10 cells:
      the point (0, 5) lies in the lower cell, index 1, but the index as
      written is 2, past the last of the two cells. */
  lemma StrideCounterexample()
    ensures var g := MakeLayout(10.0, 20.0, 1, 2);
      var p := Vec2(0.0, 5.0);
      Regular(g) && InGrid(g, p) &&
      CellIndex(g, p) == 1 && PositionToIndex(g, p) == 2 && PositionToIndex(g, p) >= g.numCellsX * g.numCellsY
  {
    var g := MakeLayout(10.0, 20.0, 1, 2);
    var p := Vec2(0.0, 5.0);
    assert g.cellWidth == 10.0 && g.cellHeight == 10.0;
    assert Trunc(10.0) == 10;
    assert Trunc(p.x + g.width * 0.5) == 5 && Trunc(p.y + g.height * 0.5) == 15;
    assert Column(g, p) == 0 && Row(g, p) == 1;
  }

  /** A cell: its member list and its box. */
  datatype Cell<T> = Cell(members: seq<T>, box: AABB)

  /** The cells after add: t appended to the list of cell i, no other cell
      touched. */
  function AddTo<T>(cs: seq<Cell<T>>, i: nat, t: T): (r: seq<Cell<T>>)
    requires i < |cs|
    ensures |r| == |cs| && r[i].box == cs[i].box
    ensures multiset(r[i].members) == multiset(cs[i].members) + multiset{t}
    ensures forall k :: 0 <= k < |cs| && k != i ==> r[k] == cs[k]
  {
    cs[i := cs[i].(members := cs[i].members + [t])]
  }

  /** The cells after remove: every occurrence of t taken out of cell i, no
      other cell touched. */
  function RemoveFrom<T(==)>(cs: seq<Cell<T>>, i: nat, t: T): (r: seq<Cell<T>>)
    requires i < |cs|
    ensures |r| == |cs| && r[i].box == cs[i].box && t !in r[i].members
    ensures multiset(r[i].members) == multiset(cs[i].members)[t := 0]
    ensures forall k :: 0 <= k < |cs| && k != i ==> r[k] == cs[k]
  {
    var m := RemoveAll(cs[i].members, t);
    assert t !in m by {
      assert multiset(m)[t] == 0;
    }
    cs[i := cs[i].(members := m)]
  }

  /** Adding t to a cell that does not hold it and removing it again gives
      the cells back. */
  lemma AddThenRemove<T>(cs: seq<Cell<T>>, i: nat, t: T)
    requires i < |cs| && t !in cs[i].members
    ensures RemoveFrom(AddTo(cs, i, t), i, t) == cs
  {
    RemoveAllAppend(cs[i].members, [t], t);
    RemoveAllAbsent(cs[i].members, t);
    assert RemoveAll([t], t) == [];
    assert RemoveFrom(AddTo(cs, i, t), i, t)[i] == cs[i];
  }

  /** The members of cells i..maxx of the row starting at index base, in
      order. */
  function RowFrom<T>(cs: seq<Cell<T>>, base: nat, i: nat, maxx: nat): (r: seq<T>)
    requires i > maxx || base + maxx < |cs|
    decreases maxx + 1 - i
  {
    if i > maxx then [] else cs[base + i].members + RowFrom(cs, base, i + 1, maxx)
  }

  /** The members of the cells in columns minx..maxx of the rows starting at
      base, base + stride, ... up to stop, row by row: what queryBegin copies
      into the result buffer. */
  function GatherFrom<T>(cs: seq<Cell<T>>, stride: nat, minx: nat, maxx: nat, base: nat, stop: nat): (r: seq<T>)
    requires stride > 0 && (base > stop || minx > maxx || stop + maxx < |cs|)
    decreases stop + 1 - base
  {
    if base > stop then []
    else RowFrom(cs, base, minx, maxx) + GatherFrom(cs, stride, minx, maxx, base + stride, stop)
  }

  /** Every member of a cell in the row's column range is gathered. */
  lemma {:induction false} RowFromHas<T>(cs: seq<Cell<T>>, base: nat, i: nat, maxx: nat, c: nat, x: T)
    requires i <= c <= maxx && base + maxx < |cs| && x in cs[base + c].members
    ensures x in RowFrom(cs, base, i, maxx)
    decreases c - i
  {
    if i < c {
      RowFromHas(cs, base, i + 1, maxx, c, x);
    }
  }

  /** rb is the start of one of the rows base, base + stride, ... up to
      stop. */
  predicate OnRow(stride: nat, base: nat, stop: nat, rb: nat)
    requires stride > 0
    decreases stop + 1 - base
  {
    base <= stop && (rb == base || OnRow(stride, base + stride, stop, rb))
  }

  /** Row starts lie between the first and the last. */
  lemma {:induction false} OnRowBounds(stride: nat, base: nat, stop: nat, rb: nat)
    requires stride > 0 && OnRow(stride, base, stop, rb)
    ensures base <= rb <= stop
    decreases stop + 1 - base
  {
    if rb != base {
      OnRowBounds(stride, base + stride, stop, rb);
    }
  }

  /** A query returns every member of every cell in its rectangle. */
  lemma {:induction false} GatherFromHas<T>(cs: seq<Cell<T>>, stride: nat, minx: nat, maxx: nat, base: nat, stop: nat,
                                            rb: nat, c: nat, x: T)
    requires stride > 0 && OnRow(stride, base, stop, rb) && rb <= stop && minx <= c <= maxx && stop + maxx < |cs|
    requires x in cs[rb + c].members
    ensures x in GatherFrom(cs, stride, minx, maxx, base, stop)
    decreases stop + 1 - base
  {
    if rb == base {
      RowFromHas(cs, base, minx, maxx, c, x);
    } else {
      GatherFromHas(cs, stride, minx, maxx, base + stride, stop, rb, c, x);
    }
  }

  /** Each entry of a row's gathered members is some member of some cell of
      the row. */
  lemma {:induction false} RowFromAt<T>(cs: seq<Cell<T>>, base: nat, i: nat, maxx: nat, k: nat) returns (c: nat, m: nat)
    requires base + maxx < |cs| && k < |RowFrom(cs, base, i, maxx)|
    ensures i <= c <= maxx && m < |cs[base + c].members| && RowFrom(cs, base, i, maxx)[k] == cs[base + c].members[m]
    decreases maxx + 1 - i
  {
    var here := cs[base + i].members;
    if k < |here| {
      c, m := i, k;
    } else {
      c, m := RowFromAt(cs, base, i + 1, maxx, k - |here|);
    }
  }

  /** A query returns nothing but members of cells in its rectangle: each
      entry of the gathered members is a member of a cell of one of the rows
      within the column range. */
  lemma {:induction false} GatherFromAt<T>(cs: seq<Cell<T>>, stride: nat, minx: nat, maxx: nat, base: nat, stop: nat, k: nat)
    returns (rb: nat, c: nat, m: nat)
    requires stride > 0 && stop + maxx < |cs| && k < |GatherFrom(cs, stride, minx, maxx, base, stop)|
    ensures OnRow(stride, base, stop, rb) && rb <= stop && minx <= c <= maxx && m < |cs[rb + c].members|
    ensures GatherFrom(cs, stride, minx, maxx, base, stop)[k] == cs[rb + c].members[m]
    decreases stop + 1 - base
  {
    var here := RowFrom(cs, base, minx, maxx);
    if k < |here| {
      rb := base;
      c, m := RowFromAt(cs, base, minx, maxx, k);
    } else {
      rb, c, m := GatherFromAt(cs, stride, minx, maxx, base + stride, stop, k - |here|);
    }
  }

  /** Row starts as the query visits them: row j of miny..maxy starts at
      j * stride. */
  lemma {:induction false} OnRowIsRow(stride: nat, miny: nat, maxy: nat, j: nat)
    requires stride > 0 && miny <= j <= maxy
    ensures OnRow(stride, miny * stride, maxy * stride, j * stride)
    decreases j - miny
  {
    MulMonotone(miny, maxy, stride);
    if miny < j {
      assert (miny + 1) * stride == miny * stride + stride;
      OnRowIsRow(stride, miny + 1, maxy, j);
    }
  }

  /** ... and every row start the query visits is one of those. */
  lemma {:induction false} RowOfOnRow(stride: nat, miny: nat, maxy: nat, rb: nat) returns (j: nat)
    requires stride > 0 && OnRow(stride, miny * stride, maxy * stride, rb)
    ensures miny <= j <= maxy && rb == j * stride
    decreases maxy * stride + 1 - miny * stride
  {
    MulMonotone(maxy, miny, stride);
    if rb == miny * stride {
      j := miny;
    } else {
      assert (miny + 1) * stride == miny * stride + stride;
      j := RowOfOnRow(stride, miny + 1, maxy, rb);
    }
  }

  /** A query over columns minx..maxx and rows miny..maxy, rows indexed
      with the given stride, returns every member of every cell
      j * stride + c in that rectangle. */
  lemma QueryRectHas<T>(cs: seq<Cell<T>>, stride: nat, minx: nat, maxx: nat, miny: nat, maxy: nat,
                        j: nat, c: nat, x: T)
    requires stride > 0 && miny <= j <= maxy && minx <= c <= maxx && maxy * stride + maxx < |cs|
    requires j * stride + c < |cs| && x in cs[j * stride + c].members
    ensures x in GatherFrom(cs, stride, minx, maxx, miny * stride, maxy * stride)
  {
    OnRowIsRow(stride, miny, maxy, j);
    OnRowBounds(stride, miny * stride, maxy * stride, j * stride);
    GatherFromHas(cs, stride, minx, maxx, miny * stride, maxy * stride, j * stride, c, x);
  }

  /** ... and nothing else: each entry of the result is a member of such a
      cell. */
  lemma QueryRectOnly<T>(cs: seq<Cell<T>>, stride: nat, minx: nat, maxx: nat, miny: nat, maxy: nat, k: nat)
    returns (j: nat, c: nat, m: nat)
    requires stride > 0 && maxy * stride + maxx < |cs|
    requires k < |GatherFrom(cs, stride, minx, maxx, miny * stride, maxy * stride)|
    ensures miny <= j <= maxy && minx <= c <= maxx
    ensures j * stride + c < |cs| && m < |cs[j * stride + c].members|
    ensures GatherFrom(cs, stride, minx, maxx, miny * stride, maxy * stride)[k] == cs[j * stride + c].members[m]
  {
    var rb;
    rb, c, m := GatherFromAt(cs, stride, minx, maxx, miny * stride, maxy * stride, k);
    j := RowOfOnRow(stride, miny, maxy, rb);
  }

  /** The corner points of a query: the query box's corners clamped into the
      grid, the upper ones kept just short of the far edges. */
  function MinCorner(g: Layout, p: Vec2, radius: real): Vec2
  {
    Vec2(Clamp(g.width * -0.5, p.x - radius, g.width * 0.5 - 0.01),
         Clamp(g.height * -0.5, p.y - radius, g.height * 0.5 - 0.01))
  }

  function MaxCorner(g: Layout, p: Vec2, radius: real): Vec2
  {
    Vec2(Clamp(g.width * -0.5, p.x + radius, g.width * 0.5 - 0.01),
         Clamp(g.height * -0.5, p.y + radius, g.height * 0.5 - 0.01))
  }

  /** An index split into its column and row for a row stride n. */
  function Split(k: nat, n: nat): (r: (nat, nat))
    requires n > 0
    ensures r.0 < n
  {
    (k % n, k / n)
  }

  /** The cell rectangle of a query, (minx, maxx, miny, maxy): each corner's
      index split back into column and row with the stride positionToIndex
      used. */
  function QueryRect(g: Layout, p: Vec2, radius: real): (r: (nat, nat, nat, nat))
    requires Indexable(g) && g.numCellsY > 0
    ensures r.0 < g.numCellsY && r.1 < g.numCellsY
  {
    var lo := PositionToIndex(g, MinCorner(g, p, radius));
    var hi := PositionToIndex(g, MaxCorner(g, p, radius));
    var a, b := Split(lo, g.numCellsY), Split(hi, g.numCellsY);
    (a.0, b.0, a.1, b.1)
  }

  /** The grid object. */
  class CellSpacePartition<T(==,0)> {
    const layout: Layout
    const maxEntities: nat
    var cells: seq<Cell<T>>
    const queryResult: array<T>
    var queryIndex: nat
    var queryResultNum: nat

    ghost predicate Valid()
      reads this
    {
      layout.numCellsX > 0 && layout.numCellsY > 0 &&
      |cells| == layout.numCellsX * layout.numCellsY && queryResult.Length == maxEntities
    }

    /** The cells, row by row, with their boxes; a result buffer of exactly
        maxentities slots; no results yet. */
    constructor (w: real, h: real, cellsx: nat, cellsy: nat, maxentities: nat)
      requires cellsx > 0 && cellsy > 0
      ensures Valid() && layout == MakeLayout(w, h, cellsx, cellsy) && maxEntities == maxentities
      ensures |cells| == cellsx * cellsy
      ensures forall k :: 0 <= k < |cells| ==> cells[k] == Cell([], CellBox(layout, k % cellsx, k / cellsx))
      ensures fresh(queryResult) && queryResultNum == 0
    {
      var g := MakeLayout(w, h, cellsx, cellsy);
      var s: seq<Cell<T>> := [];
      var j := 0;
      while j < cellsy
        invariant 0 <= j <= cellsy && |s| == j * cellsx
        invariant forall k :: 0 <= k < |s| ==> s[k] == Cell([], CellBox(g, k % cellsx, k / cellsx))
      {
        var i := 0;
        while i < cellsx
          invariant 0 <= i <= cellsx && |s| == j * cellsx + i
          invariant forall k :: 0 <= k < |s| ==> s[k] == Cell([], CellBox(g, k % cellsx, k / cellsx))
        {
          DivModOf(j, i, cellsx);
          s := s + [Cell([], CellBox(g, i, j))];
          i := i + 1;
        }
        j := j + 1;
      }
      layout := g;
      maxEntities := maxentities;
      cells := s;
      queryResult := new T[maxentities];
      queryResultNum := 0;
    }

    /** add(t, p): append t to the list of the cell positionToIndex names.
        An index past the last cell makes at() throw out_of_range: ok is
        false and nothing changes. */
    method Add(t: T, p: Vec2) returns (ok: bool)
      requires Valid() && Indexable(layout)
      modifies this
      ensures Valid() && queryIndex == old(queryIndex) && queryResultNum == old(queryResultNum)
      ensures ok == (PositionToIndex(layout, p) < |old(cells)|)
      ensures ok ==> cells == AddTo(old(cells), PositionToIndex(layout, p), t)
      ensures !ok ==> cells == old(cells)
    {
      var i := PositionToIndex(layout, p);
      if i >= |cells| {
        return false;
      }
      cells := cells[i := cells[i].(members := cells[i].members + [t])];
      ok := true;
    }

    /** remove(t, p): erase every occurrence of t from the list of the cell
        positionToIndex names; out of range, nothing changes. */
    method Remove(t: T, p: Vec2) returns (ok: bool)
      requires Valid() && Indexable(layout)
      modifies this
      ensures Valid() && queryIndex == old(queryIndex) && queryResultNum == old(queryResultNum)
      ensures ok == (PositionToIndex(layout, p) < |old(cells)|)
      ensures ok ==> cells == RemoveFrom(old(cells), PositionToIndex(layout, p), t)
      ensures !ok ==> cells == old(cells)
    {
      var i := PositionToIndex(layout, p);
      if i >= |cells| {
        return false;
      }
      cells := cells[i := cells[i].(members := RemoveAll(cells[i].members, t))];
      ok := true;
    }

    /** update(t, oldpos, newpos): nothing when both positions index the
        same cell; otherwise remove at the old position, then add at the new
        one. An out-of-range index throws at that step. */
    method Update(t: T, oldpos: Vec2, newpos: Vec2) returns (ok: bool)
      requires Valid() && Indexable(layout)
      modifies this
      ensures Valid() && queryIndex == old(queryIndex) && queryResultNum == old(queryResultNum)
      ensures var i1, i2 := PositionToIndex(layout, oldpos), PositionToIndex(layout, newpos);
        ok == (i1 == i2 || (i1 < |old(cells)| && i2 < |old(cells)|))
    ensures var i1, i2 := PositionToIndex(layout, oldpos), PositionToIndex(layout, newpos);
        i1 == i2 || i1 >= |old(cells)| ==> cells == old(cells)
      ensures var i1, i2 := PositionToIndex(layout, oldpos), PositionToIndex(layout, newpos);
        i1 != i2 && i1 < |old(cells)| && i2 >= |old(cells)| ==> cells == RemoveFrom(old(cells), i1, t)
      ensures var i1, i2 := PositionToIndex(layout, oldpos), PositionToIndex(layout, newpos);
        i1 != i2 && i1 < |old(cells)| && i2 < |old(cells)| ==> cells == AddTo(RemoveFrom(old(cells), i1, t), i2, t)
    {
      var i1 := PositionToIndex(layout, oldpos);
      var i2 := PositionToIndex(layout, newpos);
      if i1 == i2 {
        return true;
      }
      ok := Remove(t, oldpos);
      if !ok {
        return;
      }
      ok := Add(t, newpos);
    }

    /** The members a query at p with the given radius gathers. */
    ghost function QueryMembers(p: Vec2, radius: real): seq<T>
      reads this
      requires Valid() && Indexable(layout) && QueryInCells(p, radius)
    {
      var r := QueryRect(layout, p, radius);
      GatherFrom(cells, layout.numCellsY, r.0, r.1, r.2 * layout.numCellsY, r.3 * layout.numCellsY)
    }

    /** Every cell index the query rectangle visits names a cell (otherwise
        at() throws out_of_range). */
    ghost predicate QueryInCells(p: Vec2, radius: real)
      reads this
      requires Valid() && Indexable(layout)
    {
      var r := QueryRect(layout, p, radius);
      r.2 * layout.numCellsY > r.3 * layout.numCellsY || r.0 > r.1 || r.3 * layout.numCellsY + r.1 < |cells|
    }

    /** queryBegin(p, radius): copy the members of every cell in the query
        rectangle, row by row, into the result buffer, reset the cursor and
        return the first slot. The source asserts the results fit the
        buffer and reads slot 0 unchecked. */
    method QueryBegin(p: Vec2, radius: real) returns (first: T)
      requires Valid() && Indexable(layout) && maxEntities > 0
      requires QueryInCells(p, radius) && |QueryMembers(p, radius)| <= maxEntities
      modifies this, queryResult
      ensures Valid() && cells == old(cells) && queryIndex == 0
      ensures queryResultNum == |QueryMembers(p, radius)| && queryResult[..queryResultNum] == QueryMembers(p, radius)
      ensures first == queryResult[0]
      ensures forall k :: queryResultNum <= k < queryResult.Length ==> queryResult[k] == old(queryResult[k])
    {
      var rect := QueryRect(layout, p, radius);
      QueryRows(rect.0, rect.1, rect.2 * layout.numCellsY, rect.3 * layout.numCellsY);
      queryIndex := 0;
      first := queryResult[0];
    }

    /** The query's row loop over columns minx..maxx of the rows starting
        at firstStart, firstStart + numCellsY, ... up to lastStart, in
        order. The source counts rows j from miny to maxy and indexes
        j * numCellsY + i; the loop here steps the row start instead, which
        for a positive stride visits the same rows (j <= maxy exactly when
        j * numCellsY <= maxy * numCellsY). */
    method QueryRows(minx: nat, maxx: nat, firstStart: nat, lastStart: nat)
      requires layout.numCellsY > 0
      requires firstStart > lastStart || minx > maxx || lastStart + maxx < |cells|
      requires |GatherFrom(cells, layout.numCellsY, minx, maxx, firstStart, lastStart)| <= queryResult.Length
      modifies this, queryResult
      ensures cells == old(cells) && queryIndex == old(queryIndex)
      ensures queryResultNum <= queryResult.Length
      ensures queryResult[..queryResultNum] == GatherFrom(cells, layout.numCellsY, minx, maxx, firstStart, lastStart)
      ensures forall k :: queryResultNum <= k < queryResult.Length ==> queryResult[k] == old(queryResult[k])
    {
      var ny := layout.numCellsY;
      var rowStart := firstStart;
      ghost var total := GatherFrom(cells, ny, minx, maxx, rowStart, lastStart);
      queryResultNum := 0;
      while rowStart <= lastStart
        invariant cells == old(cells) && queryIndex == old(queryIndex)
        invariant rowStart > lastStart || minx > maxx || lastStart + maxx < |cells|
        invariant queryResultNum <= queryResult.Length
        invariant queryResult[..queryResultNum] + GatherFrom(cells, ny, minx, maxx, rowStart, lastStart) == total
        invariant forall k :: queryResultNum <= k < queryResult.Length ==> queryResult[k] == old(queryResult[k])
        decreases lastStart + ny - rowStart
      {
        ghost var before, row := queryResult[..queryResultNum], RowFrom(cells, rowStart, minx, maxx);
        ghost var rest := GatherFrom(cells, ny, minx, maxx, rowStart + ny, lastStart);
        assert GatherFrom(cells, ny, minx, maxx, rowStart, lastStart) == row + rest;
        CopyRow(rowStart, minx, maxx);
        AppendAssoc(before, row, rest);
        rowStart := rowStart + ny;
      }
    }

    /** One row of the query's nested loops: the members of cells
        minx..maxx of the row starting at index base appended to the
        results. */
    method CopyRow(base: nat, minx: nat, maxx: nat)
      requires minx > maxx || base + maxx < |cells|
      requires queryResultNum + |RowFrom(cells, base, minx, maxx)| <= queryResult.Length
      modifies this, queryResult
      ensures cells == old(cells) && queryIndex == old(queryIndex)
      ensures queryResultNum <= queryResult.Length
      ensures queryResult[..queryResultNum] == old(queryResult[..queryResultNum]) + RowFrom(cells, base, minx, maxx)
      ensures forall k :: queryResultNum <= k < queryResult.Length ==> queryResult[k] == old(queryResult[k])
    {
      ghost var goal := queryResult[..queryResultNum] + RowFrom(cells, base, minx, maxx);
      var i := minx;
      while i <= maxx
        invariant cells == old(cells) && queryIndex == old(queryIndex) && minx <= i
        invariant queryResultNum <= queryResult.Length
        invariant queryResult[..queryResultNum] + RowFrom(cells, base, i, maxx) == goal
        invariant forall k :: queryResultNum <= k < queryResult.Length ==> queryResult[k] == old(queryResult[k])
      {
        var m := cells[base + i].members;
        ghost var before, rest := queryResult[..queryResultNum], RowFrom(cells, base, i + 1, maxx);
        CopyMembers(m);
        AppendAssoc(before, m, rest);
        i := i + 1;
      }
    }

    /** The innermost loop: every member of one cell written to the next
        free result slot, in order. */
    method CopyMembers(m: seq<T>)
      requires queryResultNum + |m| <= queryResult.Length
      modifies this, queryResult
      ensures cells == old(cells) && queryIndex == old(queryIndex)
      ensures queryResultNum <= queryResult.Length
      ensures queryResult[..queryResultNum] == old(queryResult[..queryResultNum]) + m
      ensures forall k :: queryResultNum <= k < queryResult.Length ==> queryResult[k] == old(queryResult[k])
    {
      ghost var before := queryResult[..queryResultNum];
      var k := 0;
      while k < |m|
        invariant cells == old(cells) && queryIndex == old(queryIndex) && 0 <= k <= |m|
        invariant queryResultNum + |m| - k <= queryResult.Length
        invariant queryResult[..queryResultNum] == before + m[..k]
        invariant forall k :: queryResultNum <= k < queryResult.Length ==> queryResult[k] == old(queryResult[k])
      {
        queryResult[queryResultNum] := m[k];
        queryResultNum := queryResultNum + 1;
        assert m[..k + 1] == m[..k] + [m[k]];
        k := k + 1;
      }
      assert m[..k] == m;
    }

    /** queryEnd(): the cursor has reached the number of results. */
    predicate QueryEnd()
      reads this
    {
      queryIndex >= queryResultNum
    }

    /** queryNext(): advance the cursor and return the slot it now points
        at; at() throws out_of_range (None) once it passes the buffer, which
        happens on the step after the last result when the results fill the
        buffer exactly. */
    method QueryNext() returns (r: Option<T>)
      modifies this
      ensures cells == old(cells) && queryResultNum == old(queryResultNum) && queryIndex == old(queryIndex) + 1
      ensures queryIndex < queryResult.Length ==> r == Some(queryResult[queryIndex])
      ensures queryIndex >= queryResult.Length ==> r.None?
    {
      queryIndex := queryIndex + 1;
      if queryIndex < queryResult.Length {
        r := Some(queryResult[queryIndex]);
      } else {
        r := None;
      }
    }

    /** The client loop: queryBegin, then take the current result and step
        with queryNext until queryEnd. It sees exactly the gathered members,
        in order. */
    method CollectQuery(p: Vec2, radius: real) returns (found: seq<T>)
      requires Valid() && Indexable(layout) && maxEntities > 0
      requires QueryInCells(p, radius) && |QueryMembers(p, radius)| <= maxEntities
      modifies this, queryResult
      ensures Valid() && cells == old(cells)
      ensures found == old(QueryMembers(p, radius))
      ensures QueryEnd()
    {
      var first := QueryBegin(p, radius);
      found := ReadResults(first);
    }

    /** The client loop after queryBegin: take the current result and step
        with queryNext until queryEnd. Starting from the first slot, it
        reads every result, in order, and changes nothing but the cursor. */
    method ReadResults(first: T) returns (found: seq<T>)
      requires queryIndex == 0 && queryResultNum <= queryResult.Length
      requires queryResultNum > 0 ==> first == queryResult[0]
      modifies this
      ensures cells == old(cells) && queryResultNum == old(queryResultNum)
      ensures found == queryResult[..queryResultNum]
      ensures QueryEnd() && queryIndex == queryResultNum
    {
      ghost var total := queryResult[..queryResultNum];
      var cur := Some(first);
      found := [];
      while !QueryEnd()
        invariant cells == old(cells) && queryResultNum == old(queryResultNum)
        invariant queryIndex <= queryResultNum && found == total[..queryIndex]
        invariant queryIndex < queryResultNum ==> cur == Some(queryResult[queryIndex])
        decreases queryResultNum - queryIndex
      {
        found := found + [cur.value];
        assert total[..queryIndex + 1] == total[..queryIndex] + [total[queryIndex]];
        cur := QueryNext();
      }
      assert total[..queryIndex] == total;
    }
  }
}
