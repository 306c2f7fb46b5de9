/**
 * The geometry of the grid query: a rectangle given by two opposite corners
 * is cut into `k` columns and `j` rows by linear interpolation between the
 * corners, and each cell becomes a closed five-point polygon ring.
 *
 * Coordinates are exact reals; the source computes them in IEEE doubles.
 * The corners may come in either order, so "between" never assumes which
 * end of an interval is the smaller one.
 */
module Grid {

  /** A GeoJSON position: longitude first, latitude second. */
  datatype Coord = Coord(long: real, lat: real)

  /** A polygon ring: a sequence of positions whose last repeats its first. */
  type Ring = seq<Coord>

  /** `x` lies in the closed interval spanned by `a` and `b`, in whichever order. */
  predicate Between(x: real, a: real, b: real)
  {
    (a <= x && x <= b) || (b <= x && x <= a)
  }

  /** `p` lies in the closed rectangle spanned by the corners `c0` and `c1`. */
  predicate InBox(p: Coord, c0: Coord, c1: Coord)
  {
    Between(p.long, c0.long, c1.long) && Between(p.lat, c0.lat, c1.lat)
  }

  /**
   * Containment of a position in a ring, for the axis-aligned rectangles this
   * core builds: the closed box between the ring's first and third positions.
   * A ring with fewer than three positions contains nothing.
   */
  predicate Within(p: Coord, ring: Ring)
  {
    |ring| >= 3 && InBox(p, ring[0], ring[2])
  }

  /** The `i`-th of `n` subdivision points from `from` to `to`: `from + (i/n)*(to-from)`. */
  function Interp(from: real, to: real, i: nat, n: nat): real
    requires n > 0
  {
    from + ((i as real) / (n as real)) * (to - from)
  }

  /**
   * The ring of cell (`col`, `row`) of a `k` by `j` grid over the rectangle
   * spanned by `c0` and `c1`: corners 0, 3, 4 on the column's left line,
   * 1 and 2 on its right line; corners 0, 1, 4 on the row's first line,
   * 2 and 3 on its second line.
   */
  function CellRing(c0: Coord, c1: Coord, k: nat, j: nat, col: nat, row: nat): Ring
    requires k > 0 && j > 0
  {
    var left := Interp(c0.long, c1.long, col, k);
    var right := Interp(c0.long, c1.long, col + 1, k);
    var first := Interp(c0.lat, c1.lat, row, j);
    var second := Interp(c0.lat, c1.lat, row + 1, j);
    [Coord(left, first), Coord(right, first), Coord(right, second), Coord(left, second), Coord(left, first)]
  }

  /** The rings of the first `m` rows of column `col`. */
  function Column(c0: Coord, c1: Coord, k: nat, j: nat, col: nat, m: nat): seq<Ring>
    requires k > 0 && j > 0
  {
    if m == 0 then [] else Column(c0, c1, k, j, col, m - 1) + [CellRing(c0, c1, k, j, col, m - 1)]
  }

  /** The rings of the first `n` columns, column by column and row by row within a column. */
  function Columns(c0: Coord, c1: Coord, k: nat, j: nat, n: nat): seq<Ring>
    requires k > 0 && j > 0
  {
    if n == 0 then [] else Columns(c0, c1, k, j, n - 1) + Column(c0, c1, k, j, n - 1, j)
  }

  /** All cell rings of a `k` by `j` grid, in the order they are issued. */
  function Cells(c0: Coord, c1: Coord, k: nat, j: nat): seq<Ring>
    requires k > 0 && j > 0
  {
    Columns(c0, c1, k, j, k)
  }

  /** The first `m` rows of a column hold `m` rings, the ring of row `row` at index `row`. */
  lemma {:induction false} ColumnLayout(c0: Coord, c1: Coord, k: nat, j: nat, col: nat, m: nat)
    requires k > 0 && j > 0
    ensures |Column(c0, c1, k, j, col, m)| == m
    ensures forall row: nat :: row < m ==> Column(c0, c1, k, j, col, m)[row] == CellRing(c0, c1, k, j, col, row)
  {
    if m > 0 {
      ColumnLayout(c0, c1, k, j, col, m - 1);
    }
  }

  /** Where column `col` starts in a column-major layout with `j` rows, without multiplying. */
  function Offset(col: nat, j: nat): nat
  {
    if col == 0 then 0 else Offset(col - 1, j) + j
  }

  /** Column `col` starts at `col * j`. */
  lemma {:induction false} OffsetIsProduct(col: nat, j: nat)
    ensures Offset(col, j) == col * j
  {
    if col > 0 {
      OffsetIsProduct(col - 1, j);
      assert (col - 1) * j + j == col * j;
    }
  }

  /** Offsets grow by whole columns: an earlier column ends before a later one starts. */
  lemma {:induction false} OffsetMonotone(col: nat, n: nat, j: nat)
    requires col < n
    ensures Offset(col, j) + j <= Offset(n, j)
  {
    if col < n - 1 {
      OffsetMonotone(col, n - 1, j);
    }
  }

  /** The first `n` columns hold `Offset(n, j)` rings. */
  lemma {:induction false} ColumnsLength(c0: Coord, c1: Coord, k: nat, j: nat, n: nat)
    requires k > 0 && j > 0
    ensures |Columns(c0, c1, k, j, n)| == Offset(n, j)
  {
    if n > 0 {
      ColumnsLength(c0, c1, k, j, n - 1);
      ColumnLayout(c0, c1, k, j, n - 1, j);
    }
  }

  /** Column-major layout: within the first `n` columns, cell (`col`, `row`) sits at `Offset(col, j) + row`. */
  lemma {:induction false} ColumnsAt(c0: Coord, c1: Coord, k: nat, j: nat, n: nat, col: nat, row: nat)
    requires k > 0 && j > 0 && col < n && row < j
    ensures Offset(col, j) + row < |Columns(c0, c1, k, j, n)|
    ensures Columns(c0, c1, k, j, n)[Offset(col, j) + row] == CellRing(c0, c1, k, j, col, row)
  {
    ColumnsLength(c0, c1, k, j, n);
    ColumnsLength(c0, c1, k, j, n - 1);
    OffsetMonotone(col, n, j);
    var prev := Columns(c0, c1, k, j, n - 1);
    var last := Column(c0, c1, k, j, n - 1, j);
    if col < n - 1 {
      ColumnsAt(c0, c1, k, j, n - 1, col, row);
      assert (prev + last)[Offset(col, j) + row] == prev[Offset(col, j) + row];
    } else {
      ColumnLayout(c0, c1, k, j, n - 1, j);
      assert (prev + last)[Offset(col, j) + row] == last[row];
    }
  }

  /** A `k` by `j` grid has exactly `k * j` cells. */
  lemma CellsCount(c0: Coord, c1: Coord, k: nat, j: nat)
    requires k > 0 && j > 0
    ensures |Cells(c0, c1, k, j)| == k * j
  {
    ColumnsLength(c0, c1, k, j, k);
    OffsetIsProduct(k, j);
  }

  /** Cell (`col`, `row`) of a `k` by `j` grid is at index `i`, which is `col * j + row`. */
  lemma CellIndex(c0: Coord, c1: Coord, k: nat, j: nat, col: nat, row: nat) returns (i: nat)
    requires k > 0 && j > 0 && col < k && row < j
    ensures i == col * j + row
    ensures i < |Cells(c0, c1, k, j)| && Cells(c0, c1, k, j)[i] == CellRing(c0, c1, k, j, col, row)
  {
    ColumnsAt(c0, c1, k, j, k, col, row);
    OffsetIsProduct(col, j);
    i := Offset(col, j) + row;
  }

  /** Every index of a column-major `horizontal` by `vertical` grid is some cell's `col * vertical + row`. */
  lemma CellOfIndex(i: nat, horizontal: nat, vertical: nat) returns (col: nat, row: nat)
    requires vertical > 0 && i < horizontal * vertical
    ensures col < horizontal && row < vertical && i == col * vertical + row
  {
    col, row := i / vertical, i % vertical;
  }

  /** Cells come out column by column: cell (`col`, `row`) at index `col * j + row`. */
  lemma CellsLayout(c0: Coord, c1: Coord, k: nat, j: nat)
    requires k > 0 && j > 0
    ensures |Cells(c0, c1, k, j)| == k * j
    ensures forall col: nat, row: nat :: col < k && row < j ==>
      col * j + row < k * j && Cells(c0, c1, k, j)[col * j + row] == CellRing(c0, c1, k, j, col, row)
  {
    CellsCount(c0, c1, k, j);
    forall col: nat, row: nat | col < k && row < j
      ensures col * j + row < k * j && Cells(c0, c1, k, j)[col * j + row] == CellRing(c0, c1, k, j, col, row)
    {
      var i := CellIndex(c0, c1, k, j, col, row);
    }
  }

  // ---------------------------------------------------------------------------
  // Interpolation along one axis

  /** Subdivision point 0 is `from` and point `n` is `to`. */
  lemma InterpEnds(from: real, to: real, n: nat)
    requires n > 0
    ensures Interp(from, to, 0, n) == from
    ensures Interp(from, to, n, n) == to
  {
  }

  /** Division by a positive count keeps the order of the numerators. */
  lemma FractionMonotone(i: nat, i': nat, n: nat)
    requires n > 0 && i <= i'
    ensures 0.0 <= (i as real) / (n as real) <= (i' as real) / (n as real)
    ensures i < i' ==> (i as real) / (n as real) < (i' as real) / (n as real)
  {
  }

  /** Scaling a difference by a nonnegative factor keeps its sign. */
  lemma ScaleMonotone(t: real, t': real, d: real)
    requires t <= t'
    ensures d >= 0.0 ==> t * d <= t' * d
    ensures d <= 0.0 ==> t' * d <= t * d
    ensures t < t' && d > 0.0 ==> t * d < t' * d
    ensures t < t' && d < 0.0 ==> t' * d < t * d
  {
  }

  /** The subdivision points move monotonically from `from` towards `to`. */
  lemma {:induction false} InterpMonotone(from: real, to: real, i: nat, i': nat, n: nat)
    requires n > 0 && i <= i'
    ensures Between(Interp(from, to, i, n), from, Interp(from, to, i', n))
    ensures i < i' && from != to ==> Interp(from, to, i, n) != Interp(from, to, i', n)
  {
    FractionMonotone(i, i', n);
    FractionMonotone(0, i, n);
    var t, t' := (i as real) / (n as real), (i' as real) / (n as real);
    ScaleMonotone(t, t', to - from);
    ScaleMonotone(0.0, t, to - from);
  }

  /** Every subdivision point `0 <= i <= n` lies between the two ends. */
  lemma InterpBetween(from: real, to: real, i: nat, n: nat)
    requires 0 < n && i <= n
    ensures Between(Interp(from, to, i, n), from, to)
  {
    InterpMonotone(from, to, i, n, n);
    InterpEnds(from, to, n);
  }

  /**
   * The first `m` segments of the subdivision cover the interval from `from`
   * to point `m`: a value in that interval lies in one of them.
   */
  lemma {:induction false} SegmentsCover(from: real, to: real, n: nat, m: nat, x: real)
    requires 1 <= m <= n
    requires Between(x, from, Interp(from, to, m, n))
    ensures exists i: nat :: i < m && Between(x, Interp(from, to, i, n), Interp(from, to, i + 1, n))
  {
    InterpEnds(from, to, n);
    if m == 1 {
      assert Between(x, Interp(from, to, 0, n), Interp(from, to, 0 + 1, n));
    } else if Between(x, from, Interp(from, to, m - 1, n)) {
      SegmentsCover(from, to, n, m - 1, x);
      var i: nat :| i < m - 1 && Between(x, Interp(from, to, i, n), Interp(from, to, i + 1, n));
      assert i < m;
    } else {
      InterpMonotone(from, to, m - 1, m, n);
      InterpMonotone(from, to, 0, m - 1, n);
      assert Between(x, Interp(from, to, m - 1, n), Interp(from, to, (m - 1) + 1, n));
    }
  }

  /**
   * Two distinct segments of a non-degenerate subdivision meet only where
   * they are neighbours, and then only at their shared point.
   */
  lemma SegmentsMeetOnlyAtSharedPoint(from: real, to: real, n: nat, c: nat, c': nat, x: real)
    requires n > 0 && from != to && c < c'
    requires Between(x, Interp(from, to, c, n), Interp(from, to, c + 1, n))
    requires Between(x, Interp(from, to, c', n), Interp(from, to, c' + 1, n))
    ensures c' == c + 1 && x == Interp(from, to, c', n)
  {
    InterpMonotone(from, to, 0, c, n);
    InterpMonotone(from, to, c, c + 1, n);
    InterpMonotone(from, to, c + 1, c', n);
    InterpMonotone(from, to, c', c' + 1, n);
  }

  // ---------------------------------------------------------------------------
  // Properties of the cells

  /** Each ring is closed and its corners follow the column and row fractions. */
  lemma CellRingShape(c0: Coord, c1: Coord, k: nat, j: nat, col: nat, row: nat)
    requires k > 0 && j > 0
    ensures var r := CellRing(c0, c1, k, j, col, row);
      && |r| == 5 && r[4] == r[0]
      && r[0].long == r[3].long == r[4].long == c0.long + ((col as real) / (k as real)) * (c1.long - c0.long)
      && r[1].long == r[2].long == c0.long + (((col + 1) as real) / (k as real)) * (c1.long - c0.long)
      && r[0].lat == r[1].lat == r[4].lat == c0.lat + ((row as real) / (j as real)) * (c1.lat - c0.lat)
      && r[2].lat == r[3].lat == c0.lat + (((row + 1) as real) / (j as real)) * (c1.lat - c0.lat)
  {
  }

  /**
   * Neighbouring cells share an edge exactly: the right edge of column `col`
   * is the left edge of column `col + 1`, and the second line of row `row` is
   * the first line of row `row + 1`.
   */
  lemma NeighboursShareEdges(c0: Coord, c1: Coord, k: nat, j: nat, col: nat, row: nat)
    requires k > 0 && j > 0
    ensures CellRing(c0, c1, k, j, col, row)[1] == CellRing(c0, c1, k, j, col + 1, row)[0]
    ensures CellRing(c0, c1, k, j, col, row)[2] == CellRing(c0, c1, k, j, col + 1, row)[3]
    ensures CellRing(c0, c1, k, j, col, row)[3] == CellRing(c0, c1, k, j, col, row + 1)[0]
    ensures CellRing(c0, c1, k, j, col, row)[2] == CellRing(c0, c1, k, j, col, row + 1)[1]
  {
  }

  /** The grid starts at the first corner and ends at the second. */
  lemma GridCorners(c0: Coord, c1: Coord, k: nat, j: nat)
    requires k > 0 && j > 0
    ensures CellRing(c0, c1, k, j, 0, 0)[0] == c0
    ensures CellRing(c0, c1, k, j, k - 1, j - 1)[2] == c1
  {
  }

  /** A one-by-one grid is the rectangle spanned by the two corners itself. */
  lemma SingleCellIsRectangle(c0: Coord, c1: Coord)
    ensures CellRing(c0, c1, 1, 1, 0, 0)
         == [c0, Coord(c1.long, c0.lat), c1, Coord(c0.long, c1.lat), c0]
  {
    InterpEnds(c0.long, c1.long, 1);
    InterpEnds(c0.lat, c1.lat, 1);
  }

  /** A one-by-one grid has a single cell, the rectangle spanned by the two corners. */
  lemma SingleCellGrid(c0: Coord, c1: Coord)
    ensures Cells(c0, c1, 1, 1) == [[c0, Coord(c1.long, c0.lat), c1, Coord(c0.long, c1.lat), c0]]
  {
    SingleCellIsRectangle(c0, c1);
    assert Columns(c0, c1, 1, 1, 1) == Columns(c0, c1, 1, 1, 0) + Column(c0, c1, 1, 1, 0, 1);
  }

  /** Every corner of every cell lies inside the rectangle. */
  lemma CornersInBox(c0: Coord, c1: Coord, k: nat, j: nat, col: nat, row: nat)
    requires k > 0 && j > 0 && col < k && row < j
    ensures forall i :: 0 <= i < 5 ==> InBox(CellRing(c0, c1, k, j, col, row)[i], c0, c1)
  {
    InterpBetween(c0.long, c1.long, col, k);
    InterpBetween(c0.long, c1.long, col + 1, k);
    InterpBetween(c0.lat, c1.lat, row, j);
    InterpBetween(c0.lat, c1.lat, row + 1, j);
  }

  /** Whatever lies within a cell lies inside the rectangle. */
  lemma CellInBox(c0: Coord, c1: Coord, k: nat, j: nat, col: nat, row: nat, p: Coord)
    requires k > 0 && j > 0 && col < k && row < j
    requires Within(p, CellRing(c0, c1, k, j, col, row))
    ensures InBox(p, c0, c1)
  {
    CornersInBox(c0, c1, k, j, col, row);
    var r := CellRing(c0, c1, k, j, col, row);
    assert InBox(r[0], c0, c1) && InBox(r[2], c0, c1);
  }

  /** The cells leave no gap: every position in the rectangle lies within some cell. */
  lemma GridCovers(c0: Coord, c1: Coord, k: nat, j: nat, p: Coord)
    requires k > 0 && j > 0
    requires InBox(p, c0, c1)
    ensures exists col: nat, row: nat :: col < k && row < j && Within(p, CellRing(c0, c1, k, j, col, row))
  {
    InterpEnds(c0.long, c1.long, k);
    InterpEnds(c0.lat, c1.lat, j);
    SegmentsCover(c0.long, c1.long, k, k, p.long);
    var col: nat :| col < k && Between(p.long, Interp(c0.long, c1.long, col, k), Interp(c0.long, c1.long, col + 1, k));
    SegmentsCover(c0.lat, c1.lat, j, j, p.lat);
    var row: nat :| row < j && Between(p.lat, Interp(c0.lat, c1.lat, row, j), Interp(c0.lat, c1.lat, row + 1, j));
    assert Within(p, CellRing(c0, c1, k, j, col, row));
  }

  /**
   * The cells do not overlap beyond shared edges: over a rectangle of nonzero
   * width and height, a position within two different cells lies on the line
   * that separates two neighbouring columns, or two neighbouring rows.
   */
  lemma CellsOverlapOnlyOnEdges(c0: Coord, c1: Coord, k: nat, j: nat,
                                col: nat, row: nat, col': nat, row': nat, p: Coord)
    requires k > 0 && j > 0
    requires c0.long != c1.long && c0.lat != c1.lat
    requires Within(p, CellRing(c0, c1, k, j, col, row))
    requires Within(p, CellRing(c0, c1, k, j, col', row'))
    ensures col < col' ==> col' == col + 1 && p.long == Interp(c0.long, c1.long, col', k)
    ensures col' < col ==> col == col' + 1 && p.long == Interp(c0.long, c1.long, col, k)
    ensures row < row' ==> row' == row + 1 && p.lat == Interp(c0.lat, c1.lat, row', j)
    ensures row' < row ==> row == row' + 1 && p.lat == Interp(c0.lat, c1.lat, row, j)
  {
    if col < col' {
      SegmentsMeetOnlyAtSharedPoint(c0.long, c1.long, k, col, col', p.long);
    } else if col' < col {
      SegmentsMeetOnlyAtSharedPoint(c0.long, c1.long, k, col', col, p.long);
    }
    if row < row' {
      SegmentsMeetOnlyAtSharedPoint(c0.lat, c1.lat, j, row, row', p.lat);
    } else if row' < row {
      SegmentsMeetOnlyAtSharedPoint(c0.lat, c1.lat, j, row', row, p.lat);
    }
  }
}
