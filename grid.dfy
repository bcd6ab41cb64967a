/** The simulation grid: cell indexing, index clamping and the bilinear sampler.
    A field is a flat sequence of ni*nj reals; cell (i, j) lives at ni*j + i and
    stands for the world point (originX + i*dx, originY + j*dx). */
module FluidGrid {

  /** The grid descriptor. The solver keeps these five values as mutable state and
      packs them into this value for the pure functions below. */
  datatype Grid = Grid(originX: real, originY: real, dx: real, ni: int, nj: int) {

    /** A grid the stencils can run on: positive spacing and at least one interior
        row and column inside the boundary ring. */
    predicate Valid() {
      dx > 0.0 && ni >= 3 && nj >= 3
    }

    function Size(): int {
      ni * nj
    }

    /** Column of flat index k. */
    function Col(k: int): int
      requires Valid()
    {
      k % ni
    }

    /** Row of flat index k. */
    function Row(k: int): (r: int)
      requires Valid()
      ensures 0 <= k < Size() ==> 0 <= r < nj
    {
      if 0 <= k < Size() then CellOfIndex(this, k); k / ni else k / ni
    }

    /** Flat index of cell (i, j); it is the only index whose column and row are i and j. */
    function Idx(i: int, j: int): (k: int)
      requires Valid()
      requires 0 <= i < ni && 0 <= j < nj
      ensures 0 <= k < Size()
      ensures Col(k) == i && Row(k) == j
    {
      IdxInRange(ni, nj, i, j);
      DivModOfIdx(ni, i, j);
      ni * j + i
    }

    /** Cells of the outer ring hold boundary values, the others are interior. */
    predicate Interior(i: int, j: int) {
      1 <= i <= ni - 2 && 1 <= j <= nj - 2
    }

    /** World coordinates of grid node (i, j): the lower-left corner of cell (i, j), from
        which the sampler measures its offset. */
    function X(i: int): real {
      originX + i as real * dx
    }

    function Y(j: int): real {
      originY + j as real * dx
    }
  }

  lemma IdxInRange(ni: int, nj: int, i: int, j: int)
    requires ni > 0 && 0 <= i < ni && 0 <= j < nj
    ensures 0 <= ni * j + i < ni * nj
  {
    assert ni * j <= ni * (nj - 1) by {
      MulMonotone(ni, j, nj - 1);
    }
    assert ni * (nj - 1) == ni * nj - ni;
  }

  lemma MulMonotone(a: int, b: int, c: int)
    requires a >= 0 && 0 <= b <= c
    ensures 0 <= a * b <= a * c
  {
    assert a * c - a * b == a * (c - b);
  }

  /** Euclidean division recovers the row and column from a flat index. */
  lemma DivModOfIdx(ni: int, i: int, j: int)
    requires ni > 0 && 0 <= i < ni && 0 <= j
    ensures (ni * j + i) / ni == j && (ni * j + i) % ni == i
  {
    var k := ni * j + i;
    var q, r := k / ni, k % ni;
    assert k == ni * q + r && 0 <= r < ni;
    assert ni * (q - j) == i - r;
    if q > j {
      MulMonotone(ni, 1, q - j);
    } else if q < j {
      MulMonotone(ni, 1, j - q);
    }
  }

  /** Every flat index in range is the index of its own column and row. */
  lemma CellOfIndex(g: Grid, k: int)
    requires g.Valid() && 0 <= k < g.Size()
    ensures 0 <= k % g.ni < g.ni && 0 <= k / g.ni < g.nj
    ensures g.ni * (k / g.ni) + k % g.ni == k
  {
    var q, r := k / g.ni, k % g.ni;
    assert k == g.ni * q + r;
    if q >= g.nj {
      MulMonotone(g.ni, g.nj, q);
    }
    if q < 0 {
      MulMonotone(g.ni, 1, -q);
    }
  }

  /** The cell of an index in range has that index. */
  lemma IdxOfCell(g: Grid, k: int)
    requires g.Valid() && 0 <= k < g.Size()
    ensures 0 <= g.Col(k) < g.ni && 0 <= g.Row(k) < g.nj
    ensures g.Idx(g.Col(k), g.Row(k)) == k
  {
    CellOfIndex(g, k);
  }

  /** Two fields that agree on every cell (i, j) are equal. */
  lemma FieldsEqualByCells(g: Grid, s: seq<real>, t: seq<real>)
    requires g.Valid() && |s| == |t| == g.Size()
    requires forall i, j :: 0 <= i < g.ni && 0 <= j < g.nj ==> s[g.Idx(i, j)] == t[g.Idx(i, j)]
    ensures s == t
  {
    forall k | 0 <= k < |s|
      ensures s[k] == t[k]
    {
      IdxOfCell(g, k);
    }
  }

  /** Float-to-int conversion in C truncates toward zero. */
  function Trunc(x: real): (n: int)
    ensures x >= 0.0 ==> n >= 0 && n as real <= x < n as real + 1.0
    ensures x < 0.0 ==> n <= 0 && n as real - 1.0 < x <= n as real
  {
    if x >= 0.0 then x.Floor else -((-x).Floor)
  }

  /** Clamp an index into [0, n): the CLAMP macro applied to one coordinate. */
  function Clamp(i: int, n: int): (c: int)
    requires n >= 1
    ensures 0 <= c < n
    ensures 0 <= i < n ==> c == i
    ensures i < 0 ==> c == 0
    ensures i >= n ==> c == n - 1
  {
    var lo := if i < 0 then 0 else i;
    if lo >= n then n - 1 else lo
  }

  /** Cell and offset along one axis: the truncated cell coordinate, clamped; the
      offset is measured from the clamped cell; the far cell is that cell + 1, clamped
      again. */
  datatype AxisCell = AxisCell(lo: int, hi: int, offset: real)

  function AxisCellAt(x0: real, dx: real, n: int): (c: AxisCell)
    requires dx > 0.0 && n >= 1
    ensures 0 <= c.lo < n && 0 <= c.hi < n
    ensures c.hi == c.lo + 1 || c.hi == c.lo == n - 1
  {
    var i := Clamp(Trunc(x0 / dx), n);
    AxisCell(i, Clamp(i + 1, n), (x0 - i as real * dx) / dx)
  }

  /** The cell and its offset recover the coordinate. */
  lemma AxisCellRecovers(x0: real, dx: real, n: int)
    requires dx > 0.0 && n >= 1
    ensures var c := AxisCellAt(x0, dx, n); c.lo as real * dx + c.offset * dx == x0
  {
    var c := AxisCellAt(x0, dx, n);
    assert c.offset * dx == x0 - c.lo as real * dx;
  }

  /** The four cells the sampler reads and the offsets it blends them with. */
  datatype Footprint = Footprint(i: int, j: int, ip1: int, jp1: int, fx: real, fy: real)

  function FootprintAt(g: Grid, x: real, y: real): (f: Footprint)
    requires g.Valid()
    ensures 0 <= f.i < g.ni && 0 <= f.j < g.nj
    ensures 0 <= f.ip1 < g.ni && 0 <= f.jp1 < g.nj
    ensures f.ip1 == f.i + 1 || f.ip1 == f.i == g.ni - 1
    ensures f.jp1 == f.j + 1 || f.jp1 == f.j == g.nj - 1
  {
    var cx := AxisCellAt(x - g.originX, g.dx, g.ni);
    var cy := AxisCellAt(y - g.originY, g.dx, g.nj);
    Footprint(cx.lo, cy.lo, cx.hi, cy.hi, cx.offset, cy.offset)
  }

  /** The four flat indices read by the sampler; all of them are inside the field. */
  function SampleIndices(g: Grid, x: real, y: real): (ks: seq<int>)
    requires g.Valid()
    ensures |ks| == 4
    ensures forall n :: 0 <= n < 4 ==> 0 <= ks[n] < g.Size()
  {
    var f := FootprintAt(g, x, y);
    [g.Idx(f.i, f.j), g.Idx(f.ip1, f.j), g.Idx(f.i, f.jp1), g.Idx(f.ip1, f.jp1)]
  }

  /** Linear blend of a and b with weight t on b. */
  function Lerp(a: real, b: real, t: real): real {
    (1.0 - t) * a + t * b
  }

  /** Bilinear interpolation of field q at the world point (x, y): blend along x on
      rows j and jp1, then along y. */
  function Sample(g: Grid, q: seq<real>, x: real, y: real): real
    requires g.Valid() && |q| == g.Size()
  {
    var f := FootprintAt(g, x, y);
    var ks := SampleIndices(g, x, y);
    Lerp(Lerp(q[ks[0]], q[ks[1]], f.fx), Lerp(q[ks[2]], q[ks[3]], f.fx), f.fy)
  }

  /** At a node coordinate the axis cell is the node itself with offset 0. */
  lemma AxisAtNode(x0: real, dx: real, n: int, i: int)
    requires dx > 0.0 && 0 <= i < n && x0 == i as real * dx
    ensures AxisCellAt(x0, dx, n).lo == i
    ensures AxisCellAt(x0, dx, n).offset == 0.0
  {
    assert x0 / dx == i as real;
    var c := AxisCellAt(x0, dx, n);
    AxisCellRecovers(x0, dx, n);
    assert c.offset * dx == 0.0;
  }

  /** At an exact grid node the sampler returns the stored value. */
  lemma SampleAtNode(g: Grid, q: seq<real>, i: int, j: int)
    requires g.Valid() && |q| == g.Size()
    requires 0 <= i < g.ni && 0 <= j < g.nj
    ensures Sample(g, q, g.X(i), g.Y(j)) == q[g.Idx(i, j)]
  {
    var x0, y0 := g.X(i) - g.originX, g.Y(j) - g.originY;
    assert x0 == i as real * g.dx && y0 == j as real * g.dx;
    AxisAtNode(x0, g.dx, g.ni, i);
    AxisAtNode(y0, g.dx, g.nj, j);
    var f := FootprintAt(g, g.X(i), g.Y(j));
    assert f.i == i && f.j == j && f.fx == 0.0 && f.fy == 0.0;
    var ks := SampleIndices(g, g.X(i), g.Y(j));
    assert ks[0] == g.Idx(i, j);
    LerpAtZero(q[ks[0]], q[ks[1]]);
    LerpAtZero(q[ks[2]], q[ks[3]]);
    LerpAtZero(Lerp(q[ks[0]], q[ks[1]], 0.0), Lerp(q[ks[2]], q[ks[3]], 0.0));
  }

  lemma LerpAtZero(a: real, b: real)
    ensures Lerp(a, b, 0.0) == a
  {
  }

  lemma MulNonNegative(x: real, y: real)
    requires x >= 0.0 && y >= 0.0
    ensures x * y >= 0.0
  {
  }

  /** A blend with a weight in [0, 1], or of two equal values, stays in any interval
      holding both ends. */
  lemma LerpBetween(a: real, b: real, t: real, lo: real, hi: real)
    requires lo <= a <= hi && lo <= b <= hi
    requires 0.0 <= t <= 1.0 || a == b
    ensures lo <= Lerp(a, b, t) <= hi
  {
    if a != b {
      assert Lerp(a, b, t) - lo == (1.0 - t) * (a - lo) + t * (b - lo);
      assert hi - Lerp(a, b, t) == (1.0 - t) * (hi - a) + t * (hi - b);
      MulNonNegative(1.0 - t, a - lo);
      MulNonNegative(t, b - lo);
      MulNonNegative(1.0 - t, hi - a);
      MulNonNegative(t, hi - b);
    }
  }

  /** At or beyond the origin the offset is a true interpolation weight, unless the
      cell was clamped to the last one and both cells of the pair coincide. */
  lemma OffsetIsWeight(x0: real, dx: real, n: int)
    requires dx > 0.0 && n >= 1 && x0 >= 0.0
    ensures var c := AxisCellAt(x0, dx, n); 0.0 <= c.offset <= 1.0 || c.hi == c.lo
  {
    var c := AxisCellAt(x0, dx, n);
    AxisCellRecovers(x0, dx, n);
    var t := Trunc(x0 / dx);
    assert x0 / dx >= 0.0;
    if t <= n - 2 {
      assert c.lo == t && c.hi == t + 1;
      assert t as real <= x0 / dx < t as real + 1.0;
      assert c.offset * dx == x0 - t as real * dx;
      assert c.offset == x0 / dx - t as real;
    }
  }

  /** The sampler never leaves the range of the field at points at or beyond the
      origin: no new extrema appear there. */
  lemma SampleWithinRange(g: Grid, q: seq<real>, x: real, y: real, lo: real, hi: real)
    requires g.Valid() && |q| == g.Size()
    requires forall k :: 0 <= k < |q| ==> lo <= q[k] <= hi
    requires x >= g.originX && y >= g.originY
    ensures lo <= Sample(g, q, x, y) <= hi
  {
    var f := FootprintAt(g, x, y);
    var ks := SampleIndices(g, x, y);
    OffsetIsWeight(x - g.originX, g.dx, g.ni);
    OffsetIsWeight(y - g.originY, g.dx, g.nj);
    var a, b, c, d := q[ks[0]], q[ks[1]], q[ks[2]], q[ks[3]];
    LerpBetween(a, b, f.fx, lo, hi);
    LerpBetween(c, d, f.fx, lo, hi);
    LerpBetween(Lerp(a, b, f.fx), Lerp(c, d, f.fx), f.fy, lo, hi);
  }

  /** Half a cell below the low edge of an axis: cell 0, neighbour 1, offset -1/2. */
  lemma AxisHalfBelow(dx: real, n: int)
    requires dx > 0.0 && n >= 2
    ensures AxisCellAt(-0.5 * dx, dx, n) == AxisCell(0, 1, -0.5)
  {
    assert (-0.5 * dx) / dx == -0.5;
    var c := AxisCellAt(-0.5 * dx, dx, n);
    AxisCellRecovers(-0.5 * dx, dx, n);
    assert c.offset * dx == -0.5 * dx;
  }

  /** At or beyond the last node of an axis both cells are clamped to it. */
  lemma AxisBeyondLast(x0: real, dx: real, n: int)
    requires dx > 0.0 && n >= 1 && x0 >= (n - 1) as real * dx
    ensures AxisCellAt(x0, dx, n).lo == n - 1 && AxisCellAt(x0, dx, n).hi == n - 1
  {
    assert x0 / dx >= (n - 1) as real by {
      assert ((n - 1) as real * dx) / dx == (n - 1) as real;
    }
  }

  /** Half a cell below the origin the cell index is clamped to column 0 but the
      offset is still measured from it, so the sampler extrapolates instead of
      clamping. */
  lemma SampleExtrapolatesBelowOrigin(g: Grid, q: seq<real>, j: int)
    requires g.Valid() && |q| == g.Size()
    requires 0 <= j < g.nj
    ensures Sample(g, q, g.originX - 0.5 * g.dx, g.Y(j))
         == 1.5 * q[g.Idx(0, j)] - 0.5 * q[g.Idx(1, j)]
  {
    var x := g.originX - 0.5 * g.dx;
    var f := FootprintAt(g, x, g.Y(j));
    assert f.i == 0 && f.ip1 == 1 && f.j == j && f.fx == -0.5 && f.fy == 0.0 by {
      var y0 := g.Y(j) - g.originY;
      assert y0 == j as real * g.dx;
      AxisAtNode(y0, g.dx, g.nj, j);
      assert x - g.originX == -0.5 * g.dx;
      AxisHalfBelow(g.dx, g.ni);
    }
    var ks := SampleIndices(g, x, g.Y(j));
    assert ks[0] == g.Idx(0, j) && ks[1] == g.Idx(1, j);
    LerpAtZero(Lerp(q[ks[0]], q[ks[1]], -0.5), Lerp(q[ks[2]], q[ks[3]], -0.5));
  }

  /** Beyond the last column the cell and its neighbour are both clamped to it, so
      the sampler returns the edge value whatever the distance. */
  lemma SampleClampsBeyondLastColumn(g: Grid, q: seq<real>, x: real, j: int)
    requires g.Valid() && |q| == g.Size()
    requires 0 <= j < g.nj && x >= g.X(g.ni - 1)
    ensures Sample(g, q, x, g.Y(j)) == q[g.Idx(g.ni - 1, j)]
  {
    var f := FootprintAt(g, x, g.Y(j));
    assert f.i == g.ni - 1 && f.ip1 == g.ni - 1 && f.j == j && f.fy == 0.0 by {
      var y0 := g.Y(j) - g.originY;
      assert y0 == j as real * g.dx;
      AxisAtNode(y0, g.dx, g.nj, j);
      assert x - g.originX >= (g.ni - 1) as real * g.dx;
      AxisBeyondLast(x - g.originX, g.dx, g.ni);
    }
    var ks := SampleIndices(g, x, g.Y(j));
    assert ks[0] == ks[1] == g.Idx(g.ni - 1, j);
    LerpOfEqual(q[ks[0]], f.fx);
    LerpAtZero(q[ks[0]], Lerp(q[ks[2]], q[ks[3]], f.fx));
  }

  lemma LerpOfEqual(a: real, t: real)
    ensures Lerp(a, a, t) == a
  {
  }
}
