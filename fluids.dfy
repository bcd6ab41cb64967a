/** The grid solver. The grid that the original keeps in process-wide variables is
    the state of a Solver object; each operation works in place on the flat field
    arrays it is given, as the stencil passes of the Stable Fluids step do. */
module Fluids {
  import opened FluidGrid
  import opened Boundary
  import opened Stencils

  class Solver {
    var originX: real
    var originY: real
    var dx: real
    var ni: int
    var nj: int

    /** The grid descriptor formed by the current grid variables. */
    function CurrentGrid(): Grid
      reads this
    {
      Grid(originX, originY, dx, ni, nj)
    }

    ghost predicate Valid()
      reads this
    {
      CurrentGrid().Valid()
    }

    /** A solver starts on the default grid: origin (0, 0), spacing 0.01, 100 x 100. */
    constructor ()
      ensures Valid()
      ensures CurrentGrid() == Grid(0.0, 0.0, 0.01, 100, 100)
    {
      originX, originY, dx, ni, nj := 0.0, 0.0, 0.01, 100, 100;
    }

    /** Replace the grid; fields already allocated keep their length. */
    method SetGrid(originX: real, originY: real, dx: real, cellCountI: int, cellCountJ: int)
      requires Grid(originX, originY, dx, cellCountI, cellCountJ).Valid()
      modifies this
      ensures Valid()
      ensures CurrentGrid() == Grid(originX, originY, dx, cellCountI, cellCountJ)
    {
      this.originX, this.originY, this.dx := originX, originY, dx;
      this.ni, this.nj := cellCountI, cellCountJ;
    }

    /** Run boundary policy p over the ring of q: the two cap walls, then the two
        side walls, then the corners from the edges just written. */
    method SetBoundary(q: array<real>, p: Policy)
      requires Valid() && q.Length == CurrentGrid().Size()
      modifies q
      ensures q[..] == WithBoundary(CurrentGrid(), p, old(q[..]))
    {
      var g := CurrentGrid();
      ghost var s := q[..];
      SetEdges(q, p);
      ghost var e := q[..];
      assert EdgesSet(g, p, s, e);
      SetCorners(q);
      CornersCompleteBoundary(g, p, s, e);
    }

    /** The corner statements shared by every handler. */
    method SetCorners(q: array<real>)
      requires Valid() && q.Length == CurrentGrid().Size()
      modifies q
      ensures q[..] == WithCorners(CurrentGrid(), old(q[..]))
    {
      var g := CurrentGrid();
      var last, top := g.ni - 1, g.nj - 1;
      ghost var e := q[..];
      var k00, k10, k01, k11 := g.Idx(0, 0), g.Idx(last, 0), g.Idx(0, top), g.Idx(last, top);
      var c00 := 0.5 * (q[g.Idx(0, 1)] + q[g.Idx(1, 0)]);
      var c10 := 0.5 * (q[g.Idx(last, 1)] + q[g.Idx(last - 1, 0)]);
      var c01 := 0.5 * (q[g.Idx(0, top - 1)] + q[g.Idx(1, top)]);
      var c11 := 0.5 * (q[g.Idx(last - 1, top)] + q[g.Idx(last, top - 1)]);
      assert WithCorners(g, e) == e[k00 := c00][k10 := c10][k01 := c01][k11 := c11];
      q[k00] := c00;
      assert q[..] == e[k00 := c00];
      q[k10] := c10;
      assert q[..] == e[k00 := c00][k10 := c10];
      q[k01] := c01;
      assert q[..] == e[k00 := c00][k10 := c10][k01 := c01];
      q[k11] := c11;
    }

    /** The edge loops of a boundary handler: every non-corner ring cell gets its
        policy value, every other cell is left alone. */
    method SetEdges(q: array<real>, p: Policy)
      requires Valid() && q.Length == CurrentGrid().Size()
      modifies q
      ensures forall a, b :: 0 <= a < ni && 0 <= b < nj ==>
        q[CurrentGrid().Idx(a, b)] ==
          if OnEdge(CurrentGrid(), a, b) then EdgeValue(CurrentGrid(), p, old(q[..]), a, b)
          else old(q[CurrentGrid().Idx(a, b)])
    {
      var g := CurrentGrid();
      ghost var s := q[..];
      SetCaps(q, p);
      ghost var s1 := q[..];
      SetSides(q, p);
      forall a, b | 1 <= b <= g.nj - 2 && (a == 0 || a == g.ni - 1)
        ensures EdgeValue(g, p, s1, a, b) == EdgeValue(g, p, s, a, b)
      {
        assert s1[g.Idx(1, b)] == s[g.Idx(1, b)];
        assert s1[g.Idx(g.ni - 2, b)] == s[g.Idx(g.ni - 2, b)];
      }
    }

    /** The first edge loop: the cells of rows 0 and nj-1 between the corners. */
    method SetCaps(q: array<real>, p: Policy)
      requires Valid() && q.Length == CurrentGrid().Size()
      modifies q
      ensures forall a, b :: 0 <= a < ni && 0 <= b < nj ==>
        q[CurrentGrid().Idx(a, b)] ==
          if 1 <= a <= ni - 2 && (b == 0 || b == nj - 1) then EdgeValue(CurrentGrid(), p, old(q[..]), a, b)
          else old(q[CurrentGrid().Idx(a, b)])
    {
      var g := CurrentGrid();
      ghost var s := q[..];
      var i := 1;
      while i < g.ni - 1
        invariant 1 <= i <= g.ni - 1
        invariant forall a, b :: 0 <= a < g.ni && 0 <= b < g.nj ==>
          q[g.Idx(a, b)] == if 1 <= a < i && (b == 0 || b == g.nj - 1)
                            then EdgeValue(g, p, s, a, b) else s[g.Idx(a, b)]
      {
        q[g.Idx(i, 0)] := Apply(CapRule(p), q[g.Idx(i, 1)]);
        q[g.Idx(i, g.nj - 1)] := Apply(CapRule(p), q[g.Idx(i, g.nj - 2)]);
        i := i + 1;
      }
    }

    /** The second edge loop: the cells of columns 0 and ni-1 between the corners. */
    method SetSides(q: array<real>, p: Policy)
      requires Valid() && q.Length == CurrentGrid().Size()
      modifies q
      ensures forall a, b :: 0 <= a < ni && 0 <= b < nj ==>
        q[CurrentGrid().Idx(a, b)] ==
          if 1 <= b <= nj - 2 && (a == 0 || a == ni - 1) then EdgeValue(CurrentGrid(), p, old(q[..]), a, b)
          else old(q[CurrentGrid().Idx(a, b)])
    {
      var g := CurrentGrid();
      ghost var s := q[..];
      var j := 1;
      while j < g.nj - 1
        invariant 1 <= j <= g.nj - 1
        invariant forall a, b :: 0 <= a < g.ni && 0 <= b < g.nj ==>
          q[g.Idx(a, b)] == if 1 <= b < j && (a == 0 || a == g.ni - 1)
                            then EdgeValue(g, p, s, a, b) else s[g.Idx(a, b)]
      {
        q[g.Idx(0, j)] := Apply(SideRule(p), q[g.Idx(1, j)]);
        q[g.Idx(g.ni - 1, j)] := Apply(SideRule(p), q[g.Idx(g.ni - 2, j)]);
        j := j + 1;
      }
    }

    /** A new field of the current grid's size with every cell set to c. */
    method Malloc(c: real) returns (q: array<real>)
      requires Valid()
      ensures fresh(q) && q.Length == CurrentGrid().Size()
      ensures forall k :: 0 <= k < q.Length ==> q[k] == c
    {
      var g := CurrentGrid();
      MulMonotone(g.ni, 0, g.nj);
      q := new real[g.Size()];
      var k := 0;
      while k < q.Length
        invariant 0 <= k <= q.Length
        invariant forall m :: 0 <= m < k ==> q[m] == c
      {
        q[k] := c;
        k := k + 1;
      }
    }

    /** Set every cell of q to c. */
    method Set(q: array<real>, c: real)
      requires Valid() && q.Length == CurrentGrid().Size()
      modifies q
      ensures forall k :: 0 <= k < q.Length ==> q[k] == c
    {
      var k := 0;
      while k < q.Length
        invariant 0 <= k <= q.Length
        invariant forall m :: 0 <= m < k ==> q[m] == c
      {
        q[k] := c;
        k := k + 1;
      }
    }

    /** Set every cell (i, j) of q to fn at the cell's node position. The callback's
        context pointer is whatever fn closes over. */
    method SetWithFunction(q: array<real>, fn: (real, real) -> real)
      requires Valid() && q.Length == CurrentGrid().Size()
      modifies q
      ensures forall i, j :: 0 <= i < ni && 0 <= j < nj ==>
        q[CurrentGrid().Idx(i, j)] == fn(CurrentGrid().X(i), CurrentGrid().Y(j))
    {
      var g := CurrentGrid();
      var j := 0;
      while j < g.nj
        invariant 0 <= j <= g.nj
        invariant forall a, b :: 0 <= a < g.ni && 0 <= b < j ==> q[g.Idx(a, b)] == fn(g.X(a), g.Y(b))
      {
        SetRowWithFunction(q, fn, j);
        j := j + 1;
      }
    }

    /** Row j of SetWithFunction; rows below j are left alone. */
    method SetRowWithFunction(q: array<real>, fn: (real, real) -> real, j: int)
      requires Valid() && q.Length == CurrentGrid().Size() && 0 <= j < nj
      modifies q
      ensures forall a, b :: 0 <= a < ni && 0 <= b < nj && b != j ==>
        q[CurrentGrid().Idx(a, b)] == old(q[CurrentGrid().Idx(a, b)])
      ensures forall a :: 0 <= a < ni ==> q[CurrentGrid().Idx(a, j)] == fn(CurrentGrid().X(a), CurrentGrid().Y(j))
    {
      var g := CurrentGrid();
      var y := g.Y(j);
      var i := 0;
      while i < g.ni
        invariant 0 <= i <= g.ni
        invariant forall a, b :: 0 <= a < g.ni && 0 <= b < g.nj && b != j ==> q[g.Idx(a, b)] == old(q[g.Idx(a, b)])
        invariant forall a :: 0 <= a < i ==> q[g.Idx(a, j)] == fn(g.X(a), y)
      {
        q[g.Idx(i, j)] := fn(g.X(i), y);
        i := i + 1;
      }
    }

    /** q += alpha * source on every cell, ring included. */
    method AddSource(q: array<real>, source: array<real>, alpha: real)
      requires Valid() && q.Length == source.Length == CurrentGrid().Size() && q != source
      modifies q
      ensures forall k :: 0 <= k < q.Length ==> q[k] == old(q[k]) + alpha * source[k]
    {
      var g := CurrentGrid();
      ghost var s, src := q[..], source[..];
      var j, rowStart := 0, 0;
      while j < g.nj
        invariant 0 <= j <= g.nj && rowStart == g.ni * j <= g.Size()
        invariant forall m :: 0 <= m < rowStart ==> q[m] == s[m] + alpha * src[m]
        invariant forall m :: rowStart <= m < q.Length ==> q[m] == s[m]
      {
        RowStarts(g, j);
        AddSourceRow(q, source, alpha, j, rowStart, s, src);
        j, rowStart := j + 1, rowStart + g.ni;
      }
    }

    /** q += alpha * source, then capped at qMax, then raised to qMin, on every cell. */
    method AddSourceClamped(q: array<real>, source: array<real>, alpha: real, qMin: real, qMax: real)
      requires Valid() && q.Length == source.Length == CurrentGrid().Size() && q != source
      modifies q
      ensures forall k :: 0 <= k < q.Length ==> q[k] == ClampedSource(old(q[k]), source[k], alpha, qMin, qMax)
    {
      var g := CurrentGrid();
      ghost var s, src := q[..], source[..];
      var j, rowStart := 0, 0;
      while j < g.nj
        invariant 0 <= j <= g.nj && rowStart == g.ni * j <= g.Size()
        invariant forall m :: 0 <= m < rowStart ==> q[m] == ClampedSource(s[m], src[m], alpha, qMin, qMax)
        invariant forall m :: rowStart <= m < q.Length ==> q[m] == s[m]
      {
        RowStarts(g, j);
        AddSourceClampedRow(q, source, alpha, qMin, qMax, j, rowStart, s, src);
        j, rowStart := j + 1, rowStart + g.ni;
      }
    }

    /** q += (target - q) * source on every cell. */
    method AddSourceWithTarget(q: array<real>, source: array<real>, target: real)
      requires Valid() && q.Length == source.Length == CurrentGrid().Size() && q != source
      modifies q
      ensures forall k :: 0 <= k < q.Length ==> q[k] == TowardTarget(old(q[k]), source[k], target)
    {
      var g := CurrentGrid();
      ghost var s, src := q[..], source[..];
      var j, rowStart := 0, 0;
      while j < g.nj
        invariant 0 <= j <= g.nj && rowStart == g.ni * j <= g.Size()
        invariant forall m :: 0 <= m < rowStart ==> q[m] == TowardTarget(s[m], src[m], target)
        invariant forall m :: rowStart <= m < q.Length ==> q[m] == s[m]
      {
        RowStarts(g, j);
        AddSourceWithTargetRow(q, source, target, j, rowStart, s, src);
        j, rowStart := j + 1, rowStart + g.ni;
      }
    }

    /** v -= dt * (alpha * smoke - beta * (temperature - ambient)) on every cell. */
    method AddBuoyancy(v: array<real>, smoke: array<real>, temperature: array<real>,
                       alpha: real, beta: real, ambient: real, dt: real)
      requires Valid() && v.Length == smoke.Length == temperature.Length == CurrentGrid().Size()
      requires v != smoke && v != temperature
      modifies v
      ensures forall k :: 0 <= k < v.Length ==> 
        v[k] == old(v[k]) - dt * BuoyancyRate(smoke[k], temperature[k], alpha, beta, ambient)
    {
      var g := CurrentGrid();
      ghost var s, sm, tp := v[..], smoke[..], temperature[..];
      var j, rowStart := 0, 0;
      while j < g.nj
        invariant 0 <= j <= g.nj && rowStart == g.ni * j <= g.Size()
        invariant forall m :: 0 <= m < rowStart ==> v[m] == s[m] - dt * BuoyancyRate(sm[m], tp[m], alpha, beta, ambient)
        invariant forall m :: rowStart <= m < v.Length ==> v[m] == s[m]
      {
        RowStarts(g, j);
        AddBuoyancyRow(v, smoke, temperature, alpha, beta, ambient, dt, j, rowStart, s, sm, tp);
        j, rowStart := j + 1, rowStart + g.ni;
      }
    }

    /** The inner loop of AddSource over row j, whose first flat index is rowStart. */
    method AddSourceRow(q: array<real>, source: array<real>, alpha: real, j: int, rowStart: int, ghost s: seq<real>, ghost src: seq<real>)
      requires Valid() && q.Length == source.Length == CurrentGrid().Size() && q != source
      requires 0 <= j < nj && rowStart == ni * j && rowStart + ni <= q.Length
      requires |s| == |src| == q.Length && src == source[..]
      requires forall m :: 0 <= m < rowStart ==> q[m] == s[m] + alpha * src[m]
      requires forall m :: rowStart <= m < q.Length ==> q[m] == s[m]
      modifies q
      ensures forall m :: 0 <= m < rowStart + ni ==> q[m] == s[m] + alpha * src[m]
      ensures forall m :: rowStart + ni <= m < q.Length ==> q[m] == s[m]
    {
      var g := CurrentGrid();
      var i := 0;
      while i < g.ni
        invariant 0 <= i <= g.ni
        invariant forall m :: 0 <= m < rowStart + i ==> q[m] == s[m] + alpha * src[m]
        invariant forall m :: rowStart + i <= m < q.Length ==> q[m] == s[m]
      {
        var k := rowStart + i;
        q[k] := q[k] + alpha * source[k];
        i := i + 1;
      }
    }

    /** The inner loop of AddSourceClamped over row j, whose first flat index is rowStart. */
    method AddSourceClampedRow(q: array<real>, source: array<real>, alpha: real, qMin: real, qMax: real, j: int, rowStart: int, ghost s: seq<real>, ghost src: seq<real>)
      requires Valid() && q.Length == source.Length == CurrentGrid().Size() && q != source
      requires 0 <= j < nj && rowStart == ni * j && rowStart + ni <= q.Length
      requires |s| == |src| == q.Length && src == source[..]
      requires forall m :: 0 <= m < rowStart ==> q[m] == ClampedSource(s[m], src[m], alpha, qMin, qMax)
      requires forall m :: rowStart <= m < q.Length ==> q[m] == s[m]
      modifies q
      ensures forall m :: 0 <= m < rowStart + ni ==> q[m] == ClampedSource(s[m], src[m], alpha, qMin, qMax)
      ensures forall m :: rowStart + ni <= m < q.Length ==> q[m] == s[m]
    {
      var g := CurrentGrid();
      var i := 0;
      while i < g.ni
        invariant 0 <= i <= g.ni
        invariant forall m :: 0 <= m < rowStart + i ==> q[m] == ClampedSource(s[m], src[m], alpha, qMin, qMax)
        invariant forall m :: rowStart + i <= m < q.Length ==> q[m] == s[m]
      {
        var k := rowStart + i;
        var x := q[k] + alpha * source[k];
        x := if x > qMax then qMax else x;
        x := if x < qMin then qMin else x;
        assert x == ClampedSource(s[k], src[k], alpha, qMin, qMax);
        q[k] := x;
        i := i + 1;
      }
    }

    /** The inner loop of AddSourceWithTarget over row j, whose first flat index is rowStart. */
    method AddSourceWithTargetRow(q: array<real>, source: array<real>, target: real, j: int, rowStart: int, ghost s: seq<real>, ghost src: seq<real>)
      requires Valid() && q.Length == source.Length == CurrentGrid().Size() && q != source
      requires 0 <= j < nj && rowStart == ni * j && rowStart + ni <= q.Length
      requires |s| == |src| == q.Length && src == source[..]
      requires forall m :: 0 <= m < rowStart ==> q[m] == TowardTarget(s[m], src[m], target)
      requires forall m :: rowStart <= m < q.Length ==> q[m] == s[m]
      modifies q
      ensures forall m :: 0 <= m < rowStart + ni ==> q[m] == TowardTarget(s[m], src[m], target)
      ensures forall m :: rowStart + ni <= m < q.Length ==> q[m] == s[m]
    {
      var g := CurrentGrid();
      var i := 0;
      while i < g.ni
        invariant 0 <= i <= g.ni
        invariant forall m :: 0 <= m < rowStart + i ==> q[m] == TowardTarget(s[m], src[m], target)
        invariant forall m :: rowStart + i <= m < q.Length ==> q[m] == s[m]
      {
        var k := rowStart + i;
        q[k] := q[k] + (target - q[k]) * source[k];
        i := i + 1;
      }
    }

    /** The inner loop of AddBuoyancy over row j, whose first flat index is rowStart. */
    method AddBuoyancyRow(v: array<real>, smoke: array<real>, temperature: array<real>, alpha: real, beta: real, ambient: real, dt: real, j: int, rowStart: int, ghost s: seq<real>, ghost sm: seq<real>, ghost tp: seq<real>)
      requires Valid() && v.Length == smoke.Length == temperature.Length == CurrentGrid().Size() && v != smoke && v != temperature
      requires 0 <= j < nj && rowStart == ni * j && rowStart + ni <= v.Length
      requires |s| == |sm| == |tp| == v.Length && sm == smoke[..] && tp == temperature[..]
      requires forall m :: 0 <= m < rowStart ==> v[m] == s[m] - dt * BuoyancyRate(sm[m], tp[m], alpha, beta, ambient)
      requires forall m :: rowStart <= m < v.Length ==> v[m] == s[m]
      modifies v
      ensures forall m :: 0 <= m < rowStart + ni ==> v[m] == s[m] - dt * BuoyancyRate(sm[m], tp[m], alpha, beta, ambient)
      ensures forall m :: rowStart + ni <= m < v.Length ==> v[m] == s[m]
    {
      var g := CurrentGrid();
      var i := 0;
      while i < g.ni
        invariant 0 <= i <= g.ni
        invariant forall m :: 0 <= m < rowStart + i ==> v[m] == s[m] - dt * BuoyancyRate(sm[m], tp[m], alpha, beta, ambient)
        invariant forall m :: rowStart + i <= m < v.Length ==> v[m] == s[m]
      {
        var k := rowStart + i;
        v[k] := v[k] - dt * (alpha * smoke[k] - beta * (temperature[k] - ambient));
        i := i + 1;
      }
    }

    /** Advect q along (u, v) over dt from prev: each interior cell samples prev at
        the point its velocity traces back to, then policy p sets the ring. */
    method Advect(q: array<real>, prev: array<real>, u: array<real>, v: array<real>, p: Policy, dt: real)
      requires Valid()
      requires q.Length == prev.Length == u.Length == v.Length == CurrentGrid().Size()
      requires q != prev && q != u && q != v
      modifies q
      ensures q[..] == WithBoundary(CurrentGrid(), p, AdvectedField(CurrentGrid(), old(q[..]), prev[..], u[..], v[..], dt))
    {
      AdvectInterior(q, prev, u, v, dt);
      SetBoundary(q, p);
    }

    /** The interior loop of Advect. */
    method AdvectInterior(q: array<real>, prev: array<real>, u: array<real>, v: array<real>, dt: real)
      requires Valid() && q.Length == prev.Length == u.Length == v.Length == CurrentGrid().Size()
      requires q != prev && q != u && q != v
      modifies q
      ensures q[..] == AdvectedField(CurrentGrid(), old(q[..]), prev[..], u[..], v[..], dt)
    {
      var g := CurrentGrid();
      ghost var s := q[..];
      assert RingAgrees(g, AdvectedField(g, s, prev[..], u[..], v[..], dt), s);
      SweptStart(g, AdvectedField(g, s, prev[..], u[..], v[..], dt), s);
      var j := 1;
      while j < g.nj - 1
        invariant 1 <= j <= g.nj - 1
        invariant q[..] == Swept(g, AdvectedField(g, s, prev[..], u[..], v[..], dt), s, 1, j)
      {
        AdvectInteriorRow(q, prev, u, v, dt, j, s);
        j := j + 1;
      }
      SweptEnd(g, AdvectedField(g, s, prev[..], u[..], v[..], dt), s);
    }

    /** Row j of the interior loop of Advect. */
    method AdvectInteriorRow(q: array<real>, prev: array<real>, u: array<real>, v: array<real>, dt: real, j: int, ghost s: seq<real>)
      requires Valid() && q.Length == prev.Length == u.Length == v.Length == CurrentGrid().Size()
      requires q != prev && q != u && q != v
      requires 1 <= j <= nj - 2
      requires |s| == CurrentGrid().Size() && q[..] == Swept(CurrentGrid(), AdvectedField(CurrentGrid(), s, prev[..], u[..], v[..], dt), s, 1, j)
      requires RingAgrees(CurrentGrid(), AdvectedField(CurrentGrid(), s, prev[..], u[..], v[..], dt), s)
      modifies q
      ensures q[..] == Swept(CurrentGrid(), AdvectedField(CurrentGrid(), s, prev[..], u[..], v[..], dt), s, 1, j + 1)
    {
      var g := CurrentGrid();
      ghost var wantQ := AdvectedField(g, s, prev[..], u[..], v[..], dt);
      var i := 1;
      while i < g.ni - 1
        invariant 1 <= i <= g.ni - 1
        invariant q[..] == Swept(g, wantQ, s, i, j)
      {
        AdvectCell(q, prev, u, v, dt, i, j, s);
        i := i + 1;
      }
      SweptNextRow(g, wantQ, s, j);
    }

    /** Diffuse q from prev at coefficient diff: iterationCount relaxation sweeps
        over the interior, each reading prev only, then policy p sets the ring once. */
    method Diffuse(q: array<real>, prev: array<real>, diff: real, iterationCount: int, p: Policy, dt: real)
      requires Valid() && q.Length == prev.Length == CurrentGrid().Size() && q != prev
      requires 1.0 + 4.0 * DiffusionRate(CurrentGrid(), diff, dt) != 0.0
      modifies q
      ensures q[..] == WithBoundary(CurrentGrid(), p,
        DiffusionSweeps(CurrentGrid(), old(q[..]), prev[..], DiffusionRate(CurrentGrid(), diff, dt),
                        DiffusionWeight(DiffusionRate(CurrentGrid(), diff, dt)), iterationCount))
    {
      var g := CurrentGrid();
      ghost var s := q[..];
      var r := DiffusionRate(g, diff, dt);
      var a := DiffusionWeight(r);
      var k := 0;
      while k < iterationCount
        invariant 0 <= k && (k <= iterationCount || k == 0)
        invariant q[..] == DiffusionSweeps(g, s, prev[..], r, a, k)
      {
        DiffusionPass(q, prev, r, a);
        k := k + 1;
      }
      assert q[..] == DiffusionSweeps(g, s, prev[..], r, a, iterationCount);
      SetBoundary(q, p);
    }

    /** One sweep of Diffuse over the interior. */
    method DiffusionPass(q: array<real>, prev: array<real>, r: real, a: real)
      requires Valid() && q.Length == prev.Length == CurrentGrid().Size() && q != prev
      modifies q
      ensures q[..] == DiffusionSweep(CurrentGrid(), old(q[..]), prev[..], r, a)
    {
      var g := CurrentGrid();
      ghost var s := q[..];
      assert RingAgrees(g, DiffusionSweep(g, s, prev[..], r, a), s);
      SweptStart(g, DiffusionSweep(g, s, prev[..], r, a), s);
      var j := 1;
      while j < g.nj - 1
        invariant 1 <= j <= g.nj - 1
        invariant q[..] == Swept(g, DiffusionSweep(g, s, prev[..], r, a), s, 1, j)
      {
        DiffusionPassRow(q, prev, r, a, j, s);
        j := j + 1;
      }
      SweptEnd(g, DiffusionSweep(g, s, prev[..], r, a), s);
    }

    /** Row j of a diffusion sweep. */
    method DiffusionPassRow(q: array<real>, prev: array<real>, r: real, a: real, j: int, ghost s: seq<real>)
      requires Valid() && q.Length == prev.Length == CurrentGrid().Size() && q != prev
      requires 1 <= j <= nj - 2
      requires |s| == CurrentGrid().Size() && q[..] == Swept(CurrentGrid(), DiffusionSweep(CurrentGrid(), s, prev[..], r, a), s, 1, j)
      requires RingAgrees(CurrentGrid(), DiffusionSweep(CurrentGrid(), s, prev[..], r, a), s)
      modifies q
      ensures q[..] == Swept(CurrentGrid(), DiffusionSweep(CurrentGrid(), s, prev[..], r, a), s, 1, j + 1)
    {
      var g := CurrentGrid();
      ghost var wantQ := DiffusionSweep(g, s, prev[..], r, a);
      var i := 1;
      while i < g.ni - 1
        invariant 1 <= i <= g.ni - 1
        invariant q[..] == Swept(g, wantQ, s, i, j)
      {
        DiffusionCellUpdate(q, prev, r, a, i, j, s);
        i := i + 1;
      }
      SweptNextRow(g, wantQ, s, j);
    }

    /** Project (u, v): store the divergence in div and zero the interior pressure,
        apply NN to both, relax the pressure iterationCount times in place with NN
        after each sweep, subtract the pressure gradient and set the velocity rings
        with policies bu and bv. */
    method Project(u: array<real>, v: array<real>, bu: Policy, bv: Policy,
                   p: array<real>, div: array<real>, iterationCount: int)
      requires Valid()
      requires u.Length == v.Length == p.Length == div.Length == CurrentGrid().Size()
      requires u != v && u != p && u != div && v != p && v != div && p != div
      modifies u, v, p, div
      ensures div[..] == WithBoundary(CurrentGrid(), NN, DivergenceField(CurrentGrid(), old(div[..]), old(u[..]), old(v[..])))
      ensures p[..] == PressureIterations(CurrentGrid(), div[..],
                         WithBoundary(CurrentGrid(), NN, ZeroInterior(CurrentGrid(), old(p[..]))), iterationCount)
      ensures u[..] == WithBoundary(CurrentGrid(), bu, SubtractGradientX(CurrentGrid(), old(u[..]), p[..]))
      ensures v[..] == WithBoundary(CurrentGrid(), bv, SubtractGradientY(CurrentGrid(), old(v[..]), p[..]))
    {
      var g := CurrentGrid();
      DivergenceAndReset(u, v, p, div);
      SetBoundary(div, NN);
      SetBoundary(p, NN);
      ghost var u0, v0, div0 := u[..], v[..], div[..];
      SolvePressure(p, div, iterationCount);
      assert u[..] == u0 && v[..] == v0 && div[..] == div0;
      ghost var pEnd := p[..];
      SubtractGradient(u, v, p);
      SetBoundary(u, bu);
      SetBoundary(v, bv);
      assert p[..] == pEnd && div[..] == div0;
    }

    /** Second loop of Project: iterationCount in-place relaxation sweeps of the
        pressure, each followed by NN on its ring. */
    method SolvePressure(p: array<real>, div: array<real>, iterationCount: int)
      requires Valid() && p.Length == div.Length == CurrentGrid().Size() && p != div
      modifies p
      ensures p[..] == PressureIterations(CurrentGrid(), div[..], old(p[..]), iterationCount)
    {
      var g := CurrentGrid();
      ghost var p0 := p[..];
      var k := 0;
      while k < iterationCount
        invariant 0 <= k && (k <= iterationCount || k == 0)
        invariant p[..] == PressureIterations(g, div[..], p0, k)
      {
        ghost var before := p[..];
        RelaxPressure(p, div);
        SetBoundary(p, NN);
        assert p[..] == WithBoundary(g, NN, RelaxRows(g, div[..], before, 1));
        k := k + 1;
      }
    }

    /** First loop of Project: divergence into div, zero into p, interior only. */
    method DivergenceAndReset(u: array<real>, v: array<real>, p: array<real>, div: array<real>)
      requires Valid() && u.Length == v.Length == p.Length == div.Length == CurrentGrid().Size()
      requires u != p && u != div && v != p && v != div && p != div
      modifies p, div
      ensures div[..] == DivergenceField(CurrentGrid(), old(div[..]), u[..], v[..])
      ensures p[..] == ZeroInterior(CurrentGrid(), old(p[..]))
    {
      var g := CurrentGrid();
      ghost var sd := div[..];
      ghost var sp := p[..];
      assert RingAgrees(g, DivergenceField(g, sd, u[..], v[..]), sd);
      SweptStart(g, DivergenceField(g, sd, u[..], v[..]), sd);
      assert RingAgrees(g, ZeroInterior(g, sp), sp);
      SweptStart(g, ZeroInterior(g, sp), sp);
      var j := 1;
      while j < g.nj - 1
        invariant 1 <= j <= g.nj - 1
        invariant div[..] == Swept(g, DivergenceField(g, sd, u[..], v[..]), sd, 1, j)
        invariant p[..] == Swept(g, ZeroInterior(g, sp), sp, 1, j)
      {
        DivergenceAndResetRow(u, v, p, div, j, sd, sp);
        j := j + 1;
      }
      SweptEnd(g, DivergenceField(g, sd, u[..], v[..]), sd);
      SweptEnd(g, ZeroInterior(g, sp), sp);
    }

    /** Row j of the first loop of Project. */
    method DivergenceAndResetRow(u: array<real>, v: array<real>, p: array<real>, div: array<real>, j: int, ghost sd: seq<real>, ghost sp: seq<real>)
      requires Valid() && u.Length == v.Length == p.Length == div.Length == CurrentGrid().Size()
      requires u != p && u != div && v != p && v != div && p != div
      requires 1 <= j <= nj - 2
      requires |sd| == CurrentGrid().Size() && div[..] == Swept(CurrentGrid(), DivergenceField(CurrentGrid(), sd, u[..], v[..]), sd, 1, j)
      requires RingAgrees(CurrentGrid(), DivergenceField(CurrentGrid(), sd, u[..], v[..]), sd)
      requires |sp| == CurrentGrid().Size() && p[..] == Swept(CurrentGrid(), ZeroInterior(CurrentGrid(), sp), sp, 1, j)
      requires RingAgrees(CurrentGrid(), ZeroInterior(CurrentGrid(), sp), sp)
      modifies p, div
      ensures div[..] == Swept(CurrentGrid(), DivergenceField(CurrentGrid(), sd, u[..], v[..]), sd, 1, j + 1)
      ensures p[..] == Swept(CurrentGrid(), ZeroInterior(CurrentGrid(), sp), sp, 1, j + 1)
    {
      var g := CurrentGrid();
      ghost var wantDiv := DivergenceField(g, sd, u[..], v[..]);
      ghost var wantP := ZeroInterior(g, sp);
      var i := 1;
      while i < g.ni - 1
        invariant 1 <= i <= g.ni - 1
        invariant div[..] == Swept(g, wantDiv, sd, i, j)
        invariant p[..] == Swept(g, wantP, sp, i, j)
      {
        DivergenceAndResetCell(u, v, p, div, i, j, sd, sp);
        i := i + 1;
      }
      SweptNextRow(g, wantDiv, sd, j);
      SweptNextRow(g, wantP, sp, j);
    }

    /** One in-place Gauss-Seidel sweep of the pressure: each interior cell, row by
        row, becomes the mean of div and its four neighbours as they stand. */
    method RelaxPressure(p: array<real>, div: array<real>)
      requires Valid() && p.Length == div.Length == CurrentGrid().Size() && p != div
      modifies p
      ensures p[..] == RelaxRows(CurrentGrid(), div[..], old(p[..]), 1)
    {
      var g := CurrentGrid();
      ghost var want := RelaxRows(g, div[..], p[..], 1);
      var j := 1;
      while j < g.nj - 1
        invariant 1 <= j <= g.nj - 1
        invariant RelaxRows(g, div[..], p[..], j) == want
      {
        var i := 1;
        while i < g.ni - 1
          invariant 1 <= i <= g.ni - 1
          invariant RelaxRows(g, div[..], RelaxRow(g, div[..], p[..], i, j), j + 1) == want
        {
          ghost var before := p[..];
          var k := g.Idx(i, j);
          p[k] := PressureCell(div[k], p[g.Idx(i + 1, j)], p[g.Idx(i - 1, j)], p[g.Idx(i, j + 1)], p[g.Idx(i, j - 1)]);
          assert p[..] == RelaxCell(g, div[..], before, i, j);
          i := i + 1;
        }
        j := j + 1;
      }
    }

    /** Last loop of Project: subtract the pressure gradient from the interior of u and v. */
    method SubtractGradient(u: array<real>, v: array<real>, p: array<real>)
      requires Valid() && u.Length == v.Length == p.Length == CurrentGrid().Size()
      requires u != v && u != p && v != p
      modifies u, v
      ensures u[..] == SubtractGradientX(CurrentGrid(), old(u[..]), p[..])
      ensures v[..] == SubtractGradientY(CurrentGrid(), old(v[..]), p[..])
    {
      var g := CurrentGrid();
      ghost var su := u[..];
      ghost var sv := v[..];
      assert RingAgrees(g, SubtractGradientX(g, su, p[..]), su);
      SweptStart(g, SubtractGradientX(g, su, p[..]), su);
      assert RingAgrees(g, SubtractGradientY(g, sv, p[..]), sv);
      SweptStart(g, SubtractGradientY(g, sv, p[..]), sv);
      var j := 1;
      while j < g.nj - 1
        invariant 1 <= j <= g.nj - 1
        invariant u[..] == Swept(g, SubtractGradientX(g, su, p[..]), su, 1, j)
        invariant v[..] == Swept(g, SubtractGradientY(g, sv, p[..]), sv, 1, j)
      {
        SubtractGradientRow(u, v, p, j, su, sv);
        j := j + 1;
      }
      SweptEnd(g, SubtractGradientX(g, su, p[..]), su);
      SweptEnd(g, SubtractGradientY(g, sv, p[..]), sv);
    }

    /** Row j of the last loop of Project. */
    method SubtractGradientRow(u: array<real>, v: array<real>, p: array<real>, j: int, ghost su: seq<real>, ghost sv: seq<real>)
      requires Valid() && u.Length == v.Length == p.Length == CurrentGrid().Size()
      requires u != v && u != p && v != p
      requires 1 <= j <= nj - 2
      requires |su| == CurrentGrid().Size() && u[..] == Swept(CurrentGrid(), SubtractGradientX(CurrentGrid(), su, p[..]), su, 1, j)
      requires RingAgrees(CurrentGrid(), SubtractGradientX(CurrentGrid(), su, p[..]), su)
      requires |sv| == CurrentGrid().Size() && v[..] == Swept(CurrentGrid(), SubtractGradientY(CurrentGrid(), sv, p[..]), sv, 1, j)
      requires RingAgrees(CurrentGrid(), SubtractGradientY(CurrentGrid(), sv, p[..]), sv)
      modifies u, v
      ensures u[..] == Swept(CurrentGrid(), SubtractGradientX(CurrentGrid(), su, p[..]), su, 1, j + 1)
      ensures v[..] == Swept(CurrentGrid(), SubtractGradientY(CurrentGrid(), sv, p[..]), sv, 1, j + 1)
    {
      var g := CurrentGrid();
      ghost var wantU := SubtractGradientX(g, su, p[..]);
      ghost var wantV := SubtractGradientY(g, sv, p[..]);
      var i := 1;
      while i < g.ni - 1
        invariant 1 <= i <= g.ni - 1
        invariant u[..] == Swept(g, wantU, su, i, j)
        invariant v[..] == Swept(g, wantV, sv, i, j)
      {
        SubtractGradientCell(u, v, p, i, j, su, sv);
        i := i + 1;
      }
      SweptNextRow(g, wantU, su, j);
      SweptNextRow(g, wantV, sv, j);
    }

    /** The body of the gradient loop at interior cell (i, j): both velocity
        components lose the pressure difference across the cell, scaled by 0.5 / dx. */
    method SubtractGradientCell(u: array<real>, v: array<real>, p: array<real>, i: int, j: int,
                                ghost su: seq<real>, ghost sv: seq<real>)
      requires Valid() && u.Length == v.Length == p.Length == CurrentGrid().Size()
      requires u != v && u != p && v != p && CurrentGrid().Interior(i, j)
      requires |su| == |sv| == CurrentGrid().Size()
      requires u[..] == Swept(CurrentGrid(), SubtractGradientX(CurrentGrid(), su, p[..]), su, i, j)
      requires v[..] == Swept(CurrentGrid(), SubtractGradientY(CurrentGrid(), sv, p[..]), sv, i, j)
      modifies u, v
      ensures u[..] == Swept(CurrentGrid(), SubtractGradientX(CurrentGrid(), su, p[..]), su, i + 1, j)
      ensures v[..] == Swept(CurrentGrid(), SubtractGradientY(CurrentGrid(), sv, p[..]), sv, i + 1, j)
    {
      var g := CurrentGrid();
      var h := GradientScale(g);
      var k := g.Idx(i, j);
      var east, west := p[g.Idx(i + 1, j)], p[g.Idx(i - 1, j)];
      var north, south := p[g.Idx(i, j + 1)], p[g.Idx(i, j - 1)];
      assert p[..][g.Idx(i + 1, j)] == east && p[..][g.Idx(i - 1, j)] == west;
      assert p[..][g.Idx(i, j + 1)] == north && p[..][g.Idx(i, j - 1)] == south;
      assert u[..][k] == u[k] && v[..][k] == v[k];
      SubtractGradientXStep(g, su, p[..], u[..], i, j);
      SubtractGradientYStep(g, sv, p[..], v[..], i, j);
      u[k] := GradientCorrected(u[k], east, west, h);
      v[k] := GradientCorrected(v[k], north, south, h);
    }

    /** The body of the advection loop at interior cell (i, j): q takes prev sampled at
        the point the velocity carries back over dt. */
    method AdvectCell(q: array<real>, prev: array<real>, u: array<real>, v: array<real>, dt: real, i: int, j: int, ghost s: seq<real>)
      requires Valid() && q.Length == prev.Length == u.Length == v.Length == CurrentGrid().Size()
      requires q != prev && q != u && q != v && CurrentGrid().Interior(i, j)
      requires |s| == CurrentGrid().Size() && q[..] == Swept(CurrentGrid(), AdvectedField(CurrentGrid(), s, prev[..], u[..], v[..], dt), s, i, j)
      modifies q
      ensures q[..] == Swept(CurrentGrid(), AdvectedField(CurrentGrid(), s, prev[..], u[..], v[..], dt), s, i + 1, j)
    {
      var g := CurrentGrid();
      var k := g.Idx(i, j);
      var x := DepartureX(g, i, u[k], dt);
      var y := DepartureY(g, j, v[k], dt);
      assert u[..][k] == u[k] && v[..][k] == v[k];
      AdvectStep(g, s, prev[..], u[..], v[..], dt, q[..], i, j, x, y);
      var value := Sample(g, prev[..], x, y);
      q[k] := value;
    }

    /** The body of the diffusion loop at interior cell (i, j). */
    method DiffusionCellUpdate(q: array<real>, prev: array<real>, r: real, a: real, i: int, j: int, ghost s: seq<real>)
      requires Valid() && q.Length == prev.Length == CurrentGrid().Size() && q != prev
      requires CurrentGrid().Interior(i, j)
      requires |s| == CurrentGrid().Size() && q[..] == Swept(CurrentGrid(), DiffusionSweep(CurrentGrid(), s, prev[..], r, a), s, i, j)
      modifies q
      ensures q[..] == Swept(CurrentGrid(), DiffusionSweep(CurrentGrid(), s, prev[..], r, a), s, i + 1, j)
    {
      var g := CurrentGrid();
      ghost var wantQ := DiffusionSweep(g, s, prev[..], r, a);
      var ij := g.Idx(i, j);
      var east, west := prev[g.Idx(i + 1, j)], prev[g.Idx(i - 1, j)];
      var north, south := prev[g.Idx(i, j + 1)], prev[g.Idx(i, j - 1)];
      assert prev[..][g.Idx(i + 1, j)] == east && prev[..][g.Idx(i - 1, j)] == west;
      assert prev[..][g.Idx(i, j + 1)] == north && prev[..][g.Idx(i, j - 1)] == south;
      assert prev[..][ij] == prev[ij];
      DiffusionSweepAt(g, s, prev[..], r, a, i, j);
      var value := DiffusionCell(prev[ij], east, west, north, south, r, a);
      SweptWrite(g, wantQ, s, q[..], i, j, value);
      q[ij] := value;
    }

    /** The body of the divergence loop at interior cell (i, j). */
    method DivergenceAndResetCell(u: array<real>, v: array<real>, p: array<real>, div: array<real>, i: int, j: int, ghost sd: seq<real>, ghost sp: seq<real>)
      requires Valid() && u.Length == v.Length == p.Length == div.Length == CurrentGrid().Size()
      requires u != p && u != div && v != p && v != div && p != div && CurrentGrid().Interior(i, j)
      requires |sd| == |sp| == CurrentGrid().Size()
      requires div[..] == Swept(CurrentGrid(), DivergenceField(CurrentGrid(), sd, u[..], v[..]), sd, i, j)
      requires p[..] == Swept(CurrentGrid(), ZeroInterior(CurrentGrid(), sp), sp, i, j)
      modifies p, div
      ensures div[..] == Swept(CurrentGrid(), DivergenceField(CurrentGrid(), sd, u[..], v[..]), sd, i + 1, j)
      ensures p[..] == Swept(CurrentGrid(), ZeroInterior(CurrentGrid(), sp), sp, i + 1, j)
    {
      var g := CurrentGrid();
      ghost var wantDiv := DivergenceField(g, sd, u[..], v[..]);
      ghost var wantP := ZeroInterior(g, sp);
      var k := g.Idx(i, j);
      var east, west := u[g.Idx(i + 1, j)], u[g.Idx(i - 1, j)];
      var north, south := v[g.Idx(i, j + 1)], v[g.Idx(i, j - 1)];
      assert u[..][g.Idx(i + 1, j)] == east && u[..][g.Idx(i - 1, j)] == west;
      assert v[..][g.Idx(i, j + 1)] == north && v[..][g.Idx(i, j - 1)] == south;
      DivergenceFieldAt(g, sd, u[..], v[..], i, j);
      var d := DivergenceCell(g.dx, east, west, north, south);
      SweptWrite(g, wantDiv, sd, div[..], i, j, d);
      SweptWrite(g, wantP, sp, p[..], i, j, 0.0);
      div[k] := d;
      p[k] := 0.0;
    }

    /** Vorticity confinement: the curl of (u, v) into w, the normalised gradient of
        |w| into nx and ny, then on the interior u gains b w ny and v loses b w nx,
        with b = eps dt dx. norm stands for the Euclidean length of a vector and tiny
        for the guard added to it. */
    method AddVorticityConfinement(u: array<real>, v: array<real>, w: array<real>, nx: array<real>, ny: array<real>,
                                   eps: real, dt: real, norm: (real, real) -> real, tiny: real)
      requires Valid()
      requires u.Length == v.Length == w.Length == nx.Length == ny.Length == CurrentGrid().Size()
      requires u != v && u != w && u != nx && u != ny && v != w && v != nx && v != ny
      requires w != nx && w != ny && nx != ny
      requires tiny > 0.0 && forall x, y :: norm(x, y) >= 0.0
      modifies u, v, w, nx, ny
      ensures w[..] == CurlField(CurrentGrid(), old(w[..]), old(u[..]), old(v[..]))
      ensures nx[..] == NormalizedGradient(CurrentGrid(), old(nx[..]), w[..], norm, tiny, true)
      ensures ny[..] == NormalizedGradient(CurrentGrid(), old(ny[..]), w[..], norm, tiny, false)
      ensures u[..] == Confined(CurrentGrid(), old(u[..]), w[..], ny[..], ConfinementStrength(CurrentGrid(), eps, dt), 1.0)
      ensures v[..] == Confined(CurrentGrid(), old(v[..]), w[..], nx[..], ConfinementStrength(CurrentGrid(), eps, dt), -1.0)
    {
      var g := CurrentGrid();
      var b := ConfinementStrength(g, eps, dt);
      CurlPass(w, u, v);
      ghost var u0, v0, w1 := u[..], v[..], w[..];
      NormalizePass(nx, ny, w, norm, tiny);
      assert u[..] == u0 && v[..] == v0 && w[..] == w1;
      ghost var nx1, ny1 := nx[..], ny[..];
      ConfinePass(u, v, w, nx, ny, b);
      assert w[..] == w1 && nx[..] == nx1 && ny[..] == ny1;
    }

    /** First loop of the confinement: the curl into the interior of w. */
    method CurlPass(w: array<real>, u: array<real>, v: array<real>)
      requires Valid() && w.Length == u.Length == v.Length == CurrentGrid().Size()
      requires w != u && w != v
      modifies w
      ensures w[..] == CurlField(CurrentGrid(), old(w[..]), u[..], v[..])
    {
      var g := CurrentGrid();
      ghost var s := w[..];
      assert RingAgrees(g, CurlField(g, s, u[..], v[..]), s);
      SweptStart(g, CurlField(g, s, u[..], v[..]), s);
      var j := 1;
      while j < g.nj - 1
        invariant 1 <= j <= g.nj - 1
        invariant w[..] == Swept(g, CurlField(g, s, u[..], v[..]), s, 1, j)
      {
        CurlRow(w, u, v, j, s);
        j := j + 1;
      }
      SweptEnd(g, CurlField(g, s, u[..], v[..]), s);
    }

    /** Row j of the curl loop. */
    method CurlRow(w: array<real>, u: array<real>, v: array<real>, j: int, ghost s: seq<real>)
      requires Valid() && w.Length == u.Length == v.Length == CurrentGrid().Size()
      requires w != u && w != v && 1 <= j <= nj - 2
      requires |s| == CurrentGrid().Size() && w[..] == Swept(CurrentGrid(), CurlField(CurrentGrid(), s, u[..], v[..]), s, 1, j)
      requires RingAgrees(CurrentGrid(), CurlField(CurrentGrid(), s, u[..], v[..]), s)
      modifies w
      ensures w[..] == Swept(CurrentGrid(), CurlField(CurrentGrid(), s, u[..], v[..]), s, 1, j + 1)
    {
      var g := CurrentGrid();
      ghost var want := CurlField(g, s, u[..], v[..]);
      var i := 1;
      while i < g.ni - 1
        invariant 1 <= i <= g.ni - 1
        invariant w[..] == Swept(g, want, s, i, j)
      {
        CurlCellUpdate(w, u, v, i, j, s);
        i := i + 1;
      }
      SweptNextRow(g, want, s, j);
    }

    /** The body of the curl loop at interior cell (i, j). */
    method CurlCellUpdate(w: array<real>, u: array<real>, v: array<real>, i: int, j: int, ghost s: seq<real>)
      requires Valid() && w.Length == u.Length == v.Length == CurrentGrid().Size()
      requires w != u && w != v && CurrentGrid().Interior(i, j)
      requires |s| == CurrentGrid().Size() && w[..] == Swept(CurrentGrid(), CurlField(CurrentGrid(), s, u[..], v[..]), s, i, j)
      modifies w
      ensures w[..] == Swept(CurrentGrid(), CurlField(CurrentGrid(), s, u[..], v[..]), s, i + 1, j)
    {
      var g := CurrentGrid();
      ghost var want := CurlField(g, s, u[..], v[..]);
      var k := g.Idx(i, j);
      var east, west := v[g.Idx(i + 1, j)], v[g.Idx(i - 1, j)];
      var north, south := u[g.Idx(i, j + 1)], u[g.Idx(i, j - 1)];
      assert v[..][g.Idx(i + 1, j)] == east && v[..][g.Idx(i - 1, j)] == west;
      assert u[..][g.Idx(i, j + 1)] == north && u[..][g.Idx(i, j - 1)] == south;
      CurlFieldAt(g, s, u[..], v[..], i, j);
      var c := CurlCell(CentralScale(g), east, west, north, south);
      SweptWrite(g, want, s, w[..], i, j, c);
      w[k] := c;
    }

    /** Second loop of the confinement: both components of the normalised gradient
        of |w| into the interiors of nx and ny. */
    method NormalizePass(nx: array<real>, ny: array<real>, w: array<real>, norm: (real, real) -> real, tiny: real)
      requires Valid() && nx.Length == ny.Length == w.Length == CurrentGrid().Size()
      requires nx != ny && nx != w && ny != w
      requires tiny > 0.0 && forall x, y :: norm(x, y) >= 0.0
      modifies nx, ny
      ensures nx[..] == NormalizedGradient(CurrentGrid(), old(nx[..]), w[..], norm, tiny, true)
      ensures ny[..] == NormalizedGradient(CurrentGrid(), old(ny[..]), w[..], norm, tiny, false)
    {
      var g := CurrentGrid();
      ghost var sx, sy := nx[..], ny[..];
      assert RingAgrees(g, NormalizedGradient(g, sx, w[..], norm, tiny, true), sx);
      SweptStart(g, NormalizedGradient(g, sx, w[..], norm, tiny, true), sx);
      assert RingAgrees(g, NormalizedGradient(g, sy, w[..], norm, tiny, false), sy);
      SweptStart(g, NormalizedGradient(g, sy, w[..], norm, tiny, false), sy);
      var j := 1;
      while j < g.nj - 1
        invariant 1 <= j <= g.nj - 1
        invariant nx[..] == Swept(g, NormalizedGradient(g, sx, w[..], norm, tiny, true), sx, 1, j)
        invariant ny[..] == Swept(g, NormalizedGradient(g, sy, w[..], norm, tiny, false), sy, 1, j)
      {
        NormalizeRow(nx, ny, w, norm, tiny, j, sx, sy);
        j := j + 1;
      }
      SweptEnd(g, NormalizedGradient(g, sx, w[..], norm, tiny, true), sx);
      SweptEnd(g, NormalizedGradient(g, sy, w[..], norm, tiny, false), sy);
    }

    /** Row j of the normalisation loop. */
    method NormalizeRow(nx: array<real>, ny: array<real>, w: array<real>, norm: (real, real) -> real, tiny: real,
                        j: int, ghost sx: seq<real>, ghost sy: seq<real>)
      requires Valid() && nx.Length == ny.Length == w.Length == CurrentGrid().Size()
      requires nx != ny && nx != w && ny != w && 1 <= j <= nj - 2
      requires tiny > 0.0 && forall x, y :: norm(x, y) >= 0.0
      requires |sx| == |sy| == CurrentGrid().Size()
      requires nx[..] == Swept(CurrentGrid(), NormalizedGradient(CurrentGrid(), sx, w[..], norm, tiny, true), sx, 1, j)
      requires ny[..] == Swept(CurrentGrid(), NormalizedGradient(CurrentGrid(), sy, w[..], norm, tiny, false), sy, 1, j)
      requires RingAgrees(CurrentGrid(), NormalizedGradient(CurrentGrid(), sx, w[..], norm, tiny, true), sx)
      requires RingAgrees(CurrentGrid(), NormalizedGradient(CurrentGrid(), sy, w[..], norm, tiny, false), sy)
      modifies nx, ny
      ensures nx[..] == Swept(CurrentGrid(), NormalizedGradient(CurrentGrid(), sx, w[..], norm, tiny, true), sx, 1, j + 1)
      ensures ny[..] == Swept(CurrentGrid(), NormalizedGradient(CurrentGrid(), sy, w[..], norm, tiny, false), sy, 1, j + 1)
    {
      var g := CurrentGrid();
      ghost var wantX := NormalizedGradient(g, sx, w[..], norm, tiny, true);
      ghost var wantY := NormalizedGradient(g, sy, w[..], norm, tiny, false);
      var i := 1;
      while i < g.ni - 1
        invariant 1 <= i <= g.ni - 1
        invariant nx[..] == Swept(g, wantX, sx, i, j)
        invariant ny[..] == Swept(g, wantY, sy, i, j)
      {
        NormalizeCell(nx, ny, w, norm, tiny, i, j, sx, sy);
        i := i + 1;
      }
      SweptNextRow(g, wantX, sx, j);
      SweptNextRow(g, wantY, sy, j);
    }

    /** The body of the normalisation loop at interior cell (i, j). */
    method NormalizeCell(nx: array<real>, ny: array<real>, w: array<real>, norm: (real, real) -> real, tiny: real,
                         i: int, j: int, ghost sx: seq<real>, ghost sy: seq<real>)
      requires Valid() && nx.Length == ny.Length == w.Length == CurrentGrid().Size()
      requires nx != ny && nx != w && ny != w && CurrentGrid().Interior(i, j)
      requires tiny > 0.0 && forall x, y :: norm(x, y) >= 0.0
      requires |sx| == |sy| == CurrentGrid().Size()
      requires nx[..] == Swept(CurrentGrid(), NormalizedGradient(CurrentGrid(), sx, w[..], norm, tiny, true), sx, i, j)
      requires ny[..] == Swept(CurrentGrid(), NormalizedGradient(CurrentGrid(), sy, w[..], norm, tiny, false), sy, i, j)
      modifies nx, ny
      ensures nx[..] == Swept(CurrentGrid(), NormalizedGradient(CurrentGrid(), sx, w[..], norm, tiny, true), sx, i + 1, j)
      ensures ny[..] == Swept(CurrentGrid(), NormalizedGradient(CurrentGrid(), sy, w[..], norm, tiny, false), sy, i + 1, j)
    {
      var g := CurrentGrid();
      ghost var wantX := NormalizedGradient(g, sx, w[..], norm, tiny, true);
      ghost var wantY := NormalizedGradient(g, sy, w[..], norm, tiny, false);
      var k := g.Idx(i, j);
      var a := CentralScale(g);
      var east, west := w[g.Idx(i + 1, j)], w[g.Idx(i - 1, j)];
      var north, south := w[g.Idx(i, j + 1)], w[g.Idx(i, j - 1)];
      assert w[..][g.Idx(i + 1, j)] == east && w[..][g.Idx(i - 1, j)] == west;
      assert w[..][g.Idx(i, j + 1)] == north && w[..][g.Idx(i, j - 1)] == south;
      var gx := GradientCell(a, east, west);
      var gy := GradientCell(a, north, south);
      var gm := norm(gx, gy);
      NormalizedGradientAt(g, sx, w[..], norm, tiny, true, i, j);
      NormalizedGradientAt(g, sy, w[..], norm, tiny, false, i, j);
      var cx, cy := NormalizedCell(gx, gm, tiny), NormalizedCell(gy, gm, tiny);
      SweptWrite(g, wantX, sx, nx[..], i, j, cx);
      SweptWrite(g, wantY, sy, ny[..], i, j, cy);
      nx[k] := cx;
      ny[k] := cy;
    }

    /** Third loop of the confinement: on the interior u gains b w ny and v loses
        b w nx. */
    method ConfinePass(u: array<real>, v: array<real>, w: array<real>, nx: array<real>, ny: array<real>, b: real)
      requires Valid() && u.Length == v.Length == w.Length == nx.Length == ny.Length == CurrentGrid().Size()
      requires u != v && u != w && u != nx && u != ny && v != w && v != nx && v != ny
      modifies u, v
      ensures u[..] == Confined(CurrentGrid(), old(u[..]), w[..], ny[..], b, 1.0)
      ensures v[..] == Confined(CurrentGrid(), old(v[..]), w[..], nx[..], b, -1.0)
    {
      var g := CurrentGrid();
      ghost var su, sv := u[..], v[..];
      assert RingAgrees(g, Confined(g, su, w[..], ny[..], b, 1.0), su);
      SweptStart(g, Confined(g, su, w[..], ny[..], b, 1.0), su);
      assert RingAgrees(g, Confined(g, sv, w[..], nx[..], b, -1.0), sv);
      SweptStart(g, Confined(g, sv, w[..], nx[..], b, -1.0), sv);
      var j := 1;
      while j < g.nj - 1
        invariant 1 <= j <= g.nj - 1
        invariant u[..] == Swept(g, Confined(g, su, w[..], ny[..], b, 1.0), su, 1, j)
        invariant v[..] == Swept(g, Confined(g, sv, w[..], nx[..], b, -1.0), sv, 1, j)
      {
        ConfineRow(u, v, w, nx, ny, b, j, su, sv);
        j := j + 1;
      }
      SweptEnd(g, Confined(g, su, w[..], ny[..], b, 1.0), su);
      SweptEnd(g, Confined(g, sv, w[..], nx[..], b, -1.0), sv);
    }

    /** Row j of the confinement loop. */
    method ConfineRow(u: array<real>, v: array<real>, w: array<real>, nx: array<real>, ny: array<real>, b: real,
                      j: int, ghost su: seq<real>, ghost sv: seq<real>)
      requires Valid() && u.Length == v.Length == w.Length == nx.Length == ny.Length == CurrentGrid().Size()
      requires u != v && u != w && u != nx && u != ny && v != w && v != nx && v != ny
      requires 1 <= j <= nj - 2 && |su| == |sv| == CurrentGrid().Size()
      requires u[..] == Swept(CurrentGrid(), Confined(CurrentGrid(), su, w[..], ny[..], b, 1.0), su, 1, j)
      requires v[..] == Swept(CurrentGrid(), Confined(CurrentGrid(), sv, w[..], nx[..], b, -1.0), sv, 1, j)
      requires RingAgrees(CurrentGrid(), Confined(CurrentGrid(), su, w[..], ny[..], b, 1.0), su)
      requires RingAgrees(CurrentGrid(), Confined(CurrentGrid(), sv, w[..], nx[..], b, -1.0), sv)
      modifies u, v
      ensures u[..] == Swept(CurrentGrid(), Confined(CurrentGrid(), su, w[..], ny[..], b, 1.0), su, 1, j + 1)
      ensures v[..] == Swept(CurrentGrid(), Confined(CurrentGrid(), sv, w[..], nx[..], b, -1.0), sv, 1, j + 1)
    {
      var g := CurrentGrid();
      ghost var wantU := Confined(g, su, w[..], ny[..], b, 1.0);
      ghost var wantV := Confined(g, sv, w[..], nx[..], b, -1.0);
      var i := 1;
      while i < g.ni - 1
        invariant 1 <= i <= g.ni - 1
        invariant u[..] == Swept(g, wantU, su, i, j)
        invariant v[..] == Swept(g, wantV, sv, i, j)
      {
        ConfineCell(u, v, w, nx, ny, b, i, j, su, sv);
        i := i + 1;
      }
      SweptNextRow(g, wantU, su, j);
      SweptNextRow(g, wantV, sv, j);
    }

    /** The body of the confinement loop at interior cell (i, j). */
    method ConfineCell(u: array<real>, v: array<real>, w: array<real>, nx: array<real>, ny: array<real>, b: real,
                       i: int, j: int, ghost su: seq<real>, ghost sv: seq<real>)
      requires Valid() && u.Length == v.Length == w.Length == nx.Length == ny.Length == CurrentGrid().Size()
      requires u != v && u != w && u != nx && u != ny && v != w && v != nx && v != ny
      requires CurrentGrid().Interior(i, j) && |su| == |sv| == CurrentGrid().Size()
      requires u[..] == Swept(CurrentGrid(), Confined(CurrentGrid(), su, w[..], ny[..], b, 1.0), su, i, j)
      requires v[..] == Swept(CurrentGrid(), Confined(CurrentGrid(), sv, w[..], nx[..], b, -1.0), sv, i, j)
      modifies u, v
      ensures u[..] == Swept(CurrentGrid(), Confined(CurrentGrid(), su, w[..], ny[..], b, 1.0), su, i + 1, j)
      ensures v[..] == Swept(CurrentGrid(), Confined(CurrentGrid(), sv, w[..], nx[..], b, -1.0), sv, i + 1, j)
    {
      var g := CurrentGrid();
      ghost var wantU := Confined(g, su, w[..], ny[..], b, 1.0);
      ghost var wantV := Confined(g, sv, w[..], nx[..], b, -1.0);
      var k := g.Idx(i, j);
      var wk, xk, yk := w[k], nx[k], ny[k];
      assert w[..][k] == wk && nx[..][k] == xk && ny[..][k] == yk;
      assert u[..][k] == u[k] && v[..][k] == v[k];
      SweptUnvisited(g, wantU, su, u[..], i, j);
      SweptUnvisited(g, wantV, sv, v[..], i, j);
      ConfinedAt(g, su, w[..], ny[..], b, 1.0, i, j);
      ConfinedAt(g, sv, w[..], nx[..], b, -1.0, i, j);
      var cu := ConfinedCell(u[k], b, wk, yk, 1.0);
      var cv := ConfinedCell(v[k], b, wk, xk, -1.0);
      SweptWrite(g, wantU, su, u[..], i, j, cu);
      SweptWrite(g, wantV, sv, v[..], i, j, cv);
      u[k] := cu;
      v[k] := cv;
    }

    /** The divergence diagnostic: the central divergence into the interior of div,
        returning the largest value written, or 0 when none is positive. */
    method GetMaxDivergence(u: array<real>, v: array<real>, div: array<real>) returns (m: real)
      requires Valid() && u.Length == v.Length == div.Length == CurrentGrid().Size()
      requires div != u && div != v
      modifies div
      ensures div[..] == CentralDivergenceField(CurrentGrid(), old(div[..]), u[..], v[..])
      ensures m == ScanMax(CurrentGrid(), div[..], 1, nj - 1)
      ensures m >= 0.0
      ensures forall i, j :: CurrentGrid().Interior(i, j) ==> div[CurrentGrid().Idx(i, j)] <= m
      ensures m == 0.0 || exists i, j :: CurrentGrid().Interior(i, j) && div[CurrentGrid().Idx(i, j)] == m
    {
      var g := CurrentGrid();
      ghost var s := div[..];
      ghost var want := CentralDivergenceField(g, s, u[..], v[..]);
      assert RingAgrees(g, want, s);
      SweptStart(g, want, s);
      m := 0.0;
      var j := 1;
      while j < g.nj - 1
        invariant 1 <= j <= g.nj - 1
        invariant div[..] == Swept(g, want, s, 1, j)
        invariant m == ScanMax(g, want, 1, j)
      {
        CentralDivergenceRow(g, s, u[..], v[..], j);
        m := MaxDivergenceRow(u, v, div, j, s, want, m);
        j := j + 1;
      }
      SweptEnd(g, want, s);
      ScanMaxIsMax(g, want);
    }

    /** Row j of the diagnostic loop; d is the field the whole pass writes. */
    method MaxDivergenceRow(u: array<real>, v: array<real>, div: array<real>, j: int,
                            ghost s: seq<real>, ghost d: seq<real>, m0: real)
      returns (m: real)
      requires Valid() && u.Length == v.Length == div.Length == CurrentGrid().Size()
      requires div != u && div != v && 1 <= j <= nj - 2
      requires |s| == |d| == CurrentGrid().Size() && div[..] == Swept(CurrentGrid(), d, s, 1, j)
      requires RingAgrees(CurrentGrid(), d, s)
      requires forall i :: 1 <= i <= ni - 2 ==> d[CurrentGrid().Idx(i, j)] == CentralDivergence(CurrentGrid(), u[..], v[..], i, j)
      requires m0 == ScanMax(CurrentGrid(), d, 1, j)
      modifies div
      ensures div[..] == Swept(CurrentGrid(), d, s, 1, j + 1)
      ensures m == ScanMax(CurrentGrid(), d, 1, j + 1)
    {
      var g := CurrentGrid();
      m := m0;
      var i := 1;
      while i < g.ni - 1
        invariant 1 <= i <= g.ni - 1
        invariant div[..] == Swept(g, d, s, i, j)
        invariant m == ScanMax(g, d, i, j)
      {
        m := MaxDivergenceCell(u, v, div, i, j, s, d, m);
        i := i + 1;
      }
      SweptNextRow(g, d, s, j);
    }

    /** The body of the diagnostic loop at interior cell (i, j): write the divergence,
        then keep the larger of it and the running value. */
    method MaxDivergenceCell(u: array<real>, v: array<real>, div: array<real>, i: int, j: int,
                             ghost s: seq<real>, ghost d: seq<real>, m0: real)
      returns (m: real)
      requires Valid() && u.Length == v.Length == div.Length == CurrentGrid().Size()
      requires div != u && div != v && CurrentGrid().Interior(i, j)
      requires |s| == |d| == CurrentGrid().Size() && div[..] == Swept(CurrentGrid(), d, s, i, j)
      requires d[CurrentGrid().Idx(i, j)] == CentralDivergence(CurrentGrid(), u[..], v[..], i, j)
      requires m0 == ScanMax(CurrentGrid(), d, i, j)
      modifies div
      ensures div[..] == Swept(CurrentGrid(), d, s, i + 1, j)
      ensures m == ScanMax(CurrentGrid(), d, i + 1, j)
    {
      var g := CurrentGrid();
      var k := g.Idx(i, j);
      var east, west := u[g.Idx(i + 1, j)], u[g.Idx(i - 1, j)];
      var north, south := v[g.Idx(i, j + 1)], v[g.Idx(i, j - 1)];
      assert u[..][g.Idx(i + 1, j)] == east && u[..][g.Idx(i - 1, j)] == west;
      assert v[..][g.Idx(i, j + 1)] == north && v[..][g.Idx(i, j - 1)] == south;
      var value := CentralDivergenceCell(g.dx, east, west, north, south);
      SweptWrite(g, d, s, div[..], i, j, value);
      div[k] := value;
      m := if div[k] > m0 then div[k] else m0;
    }
  }
}
