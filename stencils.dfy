/** What each stencil pass of the solver computes, as functions of the fields it
    reads, and the properties of those results. Fields are flat sequences laid out
    by FluidGrid; the passes that touch only interior cells leave every ring cell as
    it was before the pass's boundary policy runs. */
module Stencils {
  import opened FluidGrid
  import opened Boundary

  /** Row-major scan order of the nested loops: cell (a, b) is visited before (i, j). */
  predicate Before(a: int, b: int, i: int, j: int) {
    b < j || (b == j && a < i)
  }

  /** A pass over the interior that turns s into want, stopped just before cell
      (i, j): the cells already visited hold want, the others still hold s. */
  function Swept(g: Grid, want: seq<real>, s: seq<real>, i: int, j: int): (r: seq<real>)
    requires g.Valid() && |want| == |s| == g.Size()
    ensures |r| == g.Size()
  {
    seq(|s|, k requires 0 <= k < |s| => if Before(g.Col(k), g.Row(k), i, j) then want[k] else s[k])
  }

  /** want differs from s on interior cells at most. */
  predicate RingAgrees(g: Grid, want: seq<real>, s: seq<real>)
    requires g.Valid() && |want| == |s| == g.Size()
  {
    forall k :: 0 <= k < |s| && !g.Interior(g.Col(k), g.Row(k)) ==> want[k] == s[k]
  }

  lemma SweptStart(g: Grid, want: seq<real>, s: seq<real>)
    requires g.Valid() && |want| == |s| == g.Size() && RingAgrees(g, want, s)
    ensures Swept(g, want, s, 1, 1) == s
  {
    forall k | 0 <= k < |s|
      ensures Swept(g, want, s, 1, 1)[k] == s[k]
    {
      IdxOfCell(g, k);
    }
  }

  /** Visiting interior cell (i, j) writes want there and nothing else. */
  lemma SweptStep(g: Grid, want: seq<real>, s: seq<real>, i: int, j: int)
    requires g.Valid() && |want| == |s| == g.Size() && g.Interior(i, j)
    ensures Swept(g, want, s, i + 1, j) == Swept(g, want, s, i, j)[g.Idx(i, j) := want[g.Idx(i, j)]]
  {
    var k0 := g.Idx(i, j);
    var after, before := Swept(g, want, s, i + 1, j), Swept(g, want, s, i, j)[k0 := want[k0]];
    forall k | 0 <= k < |s|
      ensures after[k] == before[k]
    {
      IdxOfCell(g, k);
    }
  }

  /** Writing want's value into the current cell advances the pass by one cell. */
  lemma SweptWrite(g: Grid, want: seq<real>, s: seq<real>, cur: seq<real>, i: int, j: int, value: real)
    requires g.Valid() && |want| == |s| == g.Size() && g.Interior(i, j)
    requires cur == Swept(g, want, s, i, j) && value == want[g.Idx(i, j)]
    ensures cur[g.Idx(i, j) := value] == Swept(g, want, s, i + 1, j)
  {
    SweptStep(g, want, s, i, j);
  }

  /** The current cell still holds its value from s. */
  lemma SweptUnvisited(g: Grid, want: seq<real>, s: seq<real>, cur: seq<real>, i: int, j: int)
    requires g.Valid() && |want| == |s| == g.Size() && g.Interior(i, j)
    requires cur == Swept(g, want, s, i, j)
    ensures cur[g.Idx(i, j)] == s[g.Idx(i, j)]
  {
  }

  /** Passing from the end of interior row j to the start of row j + 1 crosses ring
      cells only. */
  lemma SweptNextRow(g: Grid, want: seq<real>, s: seq<real>, j: int)
    requires g.Valid() && |want| == |s| == g.Size() && RingAgrees(g, want, s)
    ensures Swept(g, want, s, g.ni - 1, j) == Swept(g, want, s, 1, j + 1)
  {
    var rowEnd, rowStart := Swept(g, want, s, g.ni - 1, j), Swept(g, want, s, 1, j + 1);
    forall k | 0 <= k < |s|
      ensures rowEnd[k] == rowStart[k]
    {
      IdxOfCell(g, k);
    }
  }

  lemma SweptEnd(g: Grid, want: seq<real>, s: seq<real>)
    requires g.Valid() && |want| == |s| == g.Size() && RingAgrees(g, want, s)
    ensures Swept(g, want, s, 1, g.nj - 1) == want
  {
    var done := Swept(g, want, s, 1, g.nj - 1);
    forall k | 0 <= k < |s|
      ensures done[k] == want[k]
    {
      IdxOfCell(g, k);
    }
  }

  /** The first index of row j + 1 is ni past the first index of row j, and no later
      than the end of the field. */
  lemma RowStarts(g: Grid, j: int)
    requires g.Valid() && 0 <= j < g.nj
    ensures g.ni * j + g.ni == g.ni * (j + 1) <= g.Size()
  {
    MulMonotone(g.ni, j + 1, g.nj);
  }

  // ---------------------------------------------------------------- sources

  /** The max-clamp, then the min-clamp. */
  function ClampValue(x: real, lo: real, hi: real): (r: real)
    ensures r >= lo
    ensures lo <= hi ==> r <= hi
    ensures lo > hi ==> r == lo
    ensures lo <= x <= hi ==> r == x
    ensures r == x || r == lo || r == hi
  {
    var capped := if x > hi then hi else x;
    if capped < lo then lo else capped
  }

  /** One cell of the clamped source pass: add alpha s, then clamp. */
  function ClampedSource(q: real, s: real, alpha: real, qMin: real, qMax: real): (r: real)
    ensures r >= qMin
    ensures qMin <= qMax ==> r <= qMax
    ensures qMin > qMax ==> r == qMin
    ensures qMin <= q + alpha * s <= qMax ==> r == q + alpha * s
  {
    ClampValue(q + alpha * s, qMin, qMax)
  }

  /** One cell of the source-with-target pass: q moves toward target by the fraction
      s of the distance between them. */
  function TowardTarget(q: real, s: real, target: real): (r: real)
    ensures s == 0.0 ==> r == q
    ensures s == 1.0 ==> r == target
    ensures 0.0 <= s <= 1.0 && q <= target ==> q <= r <= target
    ensures 0.0 <= s <= 1.0 && target <= q ==> target <= r <= q
    ensures r - target == (1.0 - s) * (q - target)
  {
    var r := q + (target - q) * s;
    TowardTargetFacts(q, s, target, r);
    r
  }

  lemma TowardTargetFacts(q: real, s: real, target: real, r: real)
    requires r == q + (target - q) * s
    ensures r - target == (1.0 - s) * (q - target)
    ensures 0.0 <= s <= 1.0 && q <= target ==> q <= r <= target
    ensures 0.0 <= s <= 1.0 && target <= q ==> target <= r <= q
  {
    var d := target - q;
    var ds := d * s;
    assert r == q + ds;
    assert r - target == ds - d;
    assert (1.0 - s) * (q - target) == d * s - d;
    MulBetween(s, d);
  }

  /** s*d lies between 0 and d when s is in [0, 1]. */
  lemma MulBetween(s: real, d: real)
    ensures 0.0 <= s <= 1.0 && d >= 0.0 ==> 0.0 <= d * s <= d
    ensures 0.0 <= s <= 1.0 && d <= 0.0 ==> d <= d * s <= 0.0
  {
    if 0.0 <= s <= 1.0 {
      assert d - d * s == (1.0 - s) * d;
      MulSigns(1.0 - s, d);
      MulSigns(s, d);
    }
  }

  /** The update the header documents moves q away from the target: with a full
      source it lands at 2q - target, not at the target. */
  lemma HeaderFormulaMovesAway(q: real, target: real)
    requires q != target
    ensures q + (q - target) * 1.0 != TowardTarget(q, 1.0, target)
    ensures q + (q - target) * 1.0 - target == 2.0 * (q - target)
  {
  }

  /** The buoyancy force per unit time: smoke pulls down, heat above ambient lifts. */
  function BuoyancyRate(smoke: real, temperature: real, alpha: real, beta: real, ambient: real): (r: real)
    ensures smoke == 0.0 && temperature == ambient ==> r == 0.0
    ensures alpha >= 0.0 && smoke >= 0.0 && beta >= 0.0 && temperature <= ambient ==> r >= 0.0
    ensures alpha >= 0.0 && smoke <= 0.0 && beta >= 0.0 && temperature >= ambient ==> r <= 0.0
  {
    MulSigns(alpha, smoke);
    MulSigns(beta, temperature - ambient);
    alpha * smoke - beta * (temperature - ambient)
  }

  lemma MulSigns(a: real, b: real)
    ensures a >= 0.0 && b >= 0.0 ==> a * b >= 0.0
    ensures a >= 0.0 && b <= 0.0 ==> a * b <= 0.0
  {
    if a >= 0.0 && b <= 0.0 {
      assert a * (-b) >= 0.0;
    }
  }

  // ---------------------------------------------------------------- advection

  /** The advection pass before its boundary policy: each interior cell samples prev
      at the point its velocity traces back to over dt; ring cells keep q. */
  function AdvectedField(g: Grid, q: seq<real>, prev: seq<real>, u: seq<real>, v: seq<real>, dt: real): (r: seq<real>)
    requires g.Valid()
    requires |q| == |prev| == |u| == |v| == g.Size()
    ensures |r| == g.Size()
  {
    seq(|q|, k requires 0 <= k < |q| =>
      var i, j := g.Col(k), g.Row(k);
      if g.Interior(i, j) then Sample(g, prev, DepartureX(g, i, u[k], dt), DepartureY(g, j, v[k], dt))
      else q[k])
  }

  /** x of the point that velocity component uk carries onto column i over dt. */
  function DepartureX(g: Grid, i: int, uk: real, dt: real): real
    requires g.Valid()
  {
    g.X(i) - dt * uk
  }

  /** y of the point that velocity component vk carries onto row j over dt. */
  function DepartureY(g: Grid, j: int, vk: real, dt: real): real
    requires g.Valid()
  {
    g.Y(j) - dt * vk
  }

  /** With no velocity on the interior, advection copies prev cell for cell there. */
  lemma AdvectStillFieldCopies(g: Grid, q: seq<real>, prev: seq<real>, u: seq<real>, v: seq<real>, dt: real)
    requires g.Valid()
    requires |q| == |prev| == |u| == |v| == g.Size()
    requires forall i, j :: g.Interior(i, j) ==> u[g.Idx(i, j)] == 0.0 && v[g.Idx(i, j)] == 0.0
    ensures forall i, j :: g.Interior(i, j) ==> AdvectedField(g, q, prev, u, v, dt)[g.Idx(i, j)] == prev[g.Idx(i, j)]
  {
    forall i, j | g.Interior(i, j)
      ensures AdvectedField(g, q, prev, u, v, dt)[g.Idx(i, j)] == prev[g.Idx(i, j)]
    {
      AdvectStillCell(g, q, prev, u, v, dt, i, j);
    }
  }

  lemma AdvectStillCell(g: Grid, q: seq<real>, prev: seq<real>, u: seq<real>, v: seq<real>, dt: real, i: int, j: int)
    requires g.Valid()
    requires |q| == |prev| == |u| == |v| == g.Size() && g.Interior(i, j)
    requires u[g.Idx(i, j)] == 0.0 && v[g.Idx(i, j)] == 0.0
    ensures AdvectedField(g, q, prev, u, v, dt)[g.Idx(i, j)] == prev[g.Idx(i, j)]
  {
    var k := g.Idx(i, j);
    AdvectedAt(g, q, prev, u, v, dt, i, j);
    assert DepartureX(g, i, u[k], dt) == g.X(i) && DepartureY(g, j, v[k], dt) == g.Y(j);
    SampleAtNode(g, prev, i, j);
  }

  /** Advection creates no new extrema when every departure point lies at or beyond
      the origin. */
  lemma AdvectWithinRange(g: Grid, q: seq<real>, prev: seq<real>, u: seq<real>, v: seq<real>, dt: real, lo: real, hi: real)
    requires g.Valid()
    requires |q| == |prev| == |u| == |v| == g.Size()
    requires forall k :: 0 <= k < |prev| ==> lo <= prev[k] <= hi
    requires forall i, j :: g.Interior(i, j) ==>
      DepartureX(g, i, u[g.Idx(i, j)], dt) >= g.originX && DepartureY(g, j, v[g.Idx(i, j)], dt) >= g.originY
    ensures forall i, j :: g.Interior(i, j) ==> lo <= AdvectedField(g, q, prev, u, v, dt)[g.Idx(i, j)] <= hi
  {
    forall i, j | g.Interior(i, j)
      ensures lo <= AdvectedField(g, q, prev, u, v, dt)[g.Idx(i, j)] <= hi
    {
      var k := g.Idx(i, j);
      AdvectedAt(g, q, prev, u, v, dt, i, j);
      SampleWithinRange(g, prev, DepartureX(g, i, u[k], dt), DepartureY(g, j, v[k], dt), lo, hi);
    }
  }

  /** Reading interior cell (i, j) of the advected field. */
  lemma AdvectedAt(g: Grid, q: seq<real>, prev: seq<real>, u: seq<real>, v: seq<real>, dt: real, i: int, j: int)
    requires g.Valid()
    requires |q| == |prev| == |u| == |v| == g.Size()
    requires g.Interior(i, j)
    ensures AdvectedField(g, q, prev, u, v, dt)[g.Idx(i, j)]
         == Sample(g, prev, DepartureX(g, i, u[g.Idx(i, j)], dt), DepartureY(g, j, v[g.Idx(i, j)], dt))
  {
  }

  /** One step of the advection pass: writing prev sampled at the departure point
      computed from the cell's own velocity advances the pass by one cell. */
  lemma AdvectStep(g: Grid, q: seq<real>, prev: seq<real>, u: seq<real>, v: seq<real>, dt: real,
                   cur: seq<real>, i: int, j: int, x: real, y: real)
    requires g.Valid() && |q| == |prev| == |u| == |v| == g.Size() && g.Interior(i, j)
    requires cur == Swept(g, AdvectedField(g, q, prev, u, v, dt), q, i, j)
    requires x == DepartureX(g, i, u[g.Idx(i, j)], dt) && y == DepartureY(g, j, v[g.Idx(i, j)], dt)
    ensures cur[g.Idx(i, j) := Sample(g, prev, x, y)] == Swept(g, AdvectedField(g, q, prev, u, v, dt), q, i + 1, j)
  {
    AdvectedAt(g, q, prev, u, v, dt, i, j);
    SweptWrite(g, AdvectedField(g, q, prev, u, v, dt), q, cur, i, j, Sample(g, prev, x, y));
  }

  /** The neighbour indices of an interior cell, written as the field comprehensions
      below write them in terms of the cell's own index. */
  lemma NeighbourIndices(g: Grid, i: int, j: int)
    requires g.Valid() && g.Interior(i, j)
    ensures var k := g.Idx(i, j);
      g.Col(k) == i && g.Row(k) == j &&
      g.Idx(g.Col(k) + 1, g.Row(k)) == g.Idx(i + 1, j) && g.Idx(g.Col(k) - 1, g.Row(k)) == g.Idx(i - 1, j) &&
      g.Idx(g.Col(k), g.Row(k) + 1) == g.Idx(i, j + 1) && g.Idx(g.Col(k), g.Row(k) - 1) == g.Idx(i, j - 1)
  {
  }

  // ---------------------------------------------------------------- diffusion

  /** A diffusion cell from its value in prev and its four neighbours there. */
  function DiffusionCell(center: real, east: real, west: real, north: real, south: real, r: real, a: real): real {
    a * (center + r * (east + west + north + south))
  }

  /** One relaxation sweep of the diffusion pass: every interior cell is set from the
      fixed field prev and its four neighbours in prev; ring cells keep q. */
  function DiffusionSweep(g: Grid, q: seq<real>, prev: seq<real>, r: real, a: real): (d: seq<real>)
    requires g.Valid() && |q| == |prev| == g.Size()
    ensures |d| == g.Size()
  {
    seq(|q|, k requires 0 <= k < |q| =>
      var i, j := g.Col(k), g.Row(k);
      if g.Interior(i, j) then
        DiffusionCell(prev[k], prev[g.Idx(i + 1, j)], prev[g.Idx(i - 1, j)],
                      prev[g.Idx(i, j + 1)], prev[g.Idx(i, j - 1)], r, a)
      else q[k])
  }

  /** Diffusion rate per sweep, r = diff dt / dx^2. */
  function DiffusionRate(g: Grid, diff: real, dt: real): real
    requires g.Valid()
  {
    diff * dt / (g.dx * g.dx)
  }

  /** Weight of a sweep, a = 1 / (1 + 4 r). */
  function DiffusionWeight(r: real): real
    requires 1.0 + 4.0 * r != 0.0
  {
    1.0 / (1.0 + 4.0 * r)
  }

  /** Reading interior cell (i, j) of a sweep. */
  lemma DiffusionSweepAt(g: Grid, q: seq<real>, prev: seq<real>, r: real, a: real, i: int, j: int)
    requires g.Valid() && |q| == |prev| == g.Size() && g.Interior(i, j)
    ensures DiffusionSweep(g, q, prev, r, a)[g.Idx(i, j)]
         == DiffusionCell(prev[g.Idx(i, j)], prev[g.Idx(i + 1, j)], prev[g.Idx(i - 1, j)],
                          prev[g.Idx(i, j + 1)], prev[g.Idx(i, j - 1)], r, a)
  {
    NeighbourIndices(g, i, j);
    var k := g.Idx(i, j);
    var w := DiffusionSweep(g, q, prev, r, a);
    assert 0 <= k < |w|;
    assert g.Interior(g.Col(k), g.Row(k));
    var east, west, north, south := g.Idx(i + 1, j), g.Idx(i - 1, j), g.Idx(i, j + 1), g.Idx(i, j - 1);
    assert w[k] == DiffusionCell(prev[k], prev[east], prev[west], prev[north], prev[south], r, a);
  }


  /** n sweeps in a row, as the iteration loop runs them. */
  function DiffusionSweeps(g: Grid, q: seq<real>, prev: seq<real>, r: real, a: real, n: int): (d: seq<real>)
    requires g.Valid() && |q| == |prev| == g.Size()
    ensures |d| == g.Size()
    decreases n
  {
    if n <= 0 then q else DiffusionSweep(g, DiffusionSweeps(g, q, prev, r, a, n - 1), prev, r, a)
  }

  /** A sweep never reads the field it writes, so sweeping its own output again
      changes nothing. */
  lemma DiffusionSweepIdempotent(g: Grid, q: seq<real>, prev: seq<real>, r: real, a: real)
    requires g.Valid() && |q| == |prev| == g.Size()
    ensures DiffusionSweep(g, DiffusionSweep(g, q, prev, r, a), prev, r, a) == DiffusionSweep(g, q, prev, r, a)
  {
  }

  /** Because neighbours come from prev, any positive number of sweeps gives the
      result of one: the iteration count has no effect beyond 1. */
  lemma {:induction false} DiffusionIterationCountIrrelevant(g: Grid, q: seq<real>, prev: seq<real>, r: real, a: real, n: int)
    requires g.Valid() && |q| == |prev| == g.Size()
    requires n >= 1
    ensures DiffusionSweeps(g, q, prev, r, a, n) == DiffusionSweep(g, q, prev, r, a)
    decreases n
  {
    if n > 1 {
      DiffusionIterationCountIrrelevant(g, q, prev, r, a, n - 1);
      DiffusionSweepIdempotent(g, q, prev, r, a);
    }
  }

  /** With zero diffusion coefficient the rate is 0 and the weight 1, and a sweep
      copies prev on the interior. */
  lemma DiffusionWithoutRateCopies(g: Grid, q: seq<real>, prev: seq<real>, dt: real)
    requires g.Valid() && |q| == |prev| == g.Size()
    ensures DiffusionRate(g, 0.0, dt) == 0.0 && DiffusionWeight(0.0) == 1.0
    ensures forall i, j :: g.Interior(i, j) ==>
      DiffusionSweep(g, q, prev, DiffusionRate(g, 0.0, dt), DiffusionWeight(0.0))[g.Idx(i, j)] == prev[g.Idx(i, j)]
  {
    assert DiffusionRate(g, 0.0, dt) == 0.0;
    forall i, j | g.Interior(i, j)
      ensures DiffusionSweep(g, q, prev, 0.0, 1.0)[g.Idx(i, j)] == prev[g.Idx(i, j)]
    {
      DiffusionSweepAt(g, q, prev, 0.0, 1.0, i, j);
    }
  }

  // ---------------------------------------------------------------- projection

  /** Divergence as the projection stores it: -dx/2 times the central differences. */
  function ProjectionDivergence(g: Grid, u: seq<real>, v: seq<real>, i: int, j: int): real
    requires g.Valid() && |u| == |v| == g.Size() && g.Interior(i, j)
  {
    DivergenceCell(g.dx, u[g.Idx(i + 1, j)], u[g.Idx(i - 1, j)], v[g.Idx(i, j + 1)], v[g.Idx(i, j - 1)])
  }

  /** -dx/2 times the central differences of u across and v along a cell. */
  function DivergenceCell(dx: real, east: real, west: real, north: real, south: real): real {
    -0.5 * dx * (east - west + north - south)
  }

  /** First pass of the projection on div: the interior receives the divergence of
      (u, v); the ring keeps div. */
  function DivergenceField(g: Grid, div: seq<real>, u: seq<real>, v: seq<real>): (d: seq<real>)
    requires g.Valid() && |div| == |u| == |v| == g.Size()
    ensures |d| == g.Size()
  {
    seq(|div|, k requires 0 <= k < |div| =>
      var i, j := g.Col(k), g.Row(k);
      if g.Interior(i, j) then ProjectionDivergence(g, u, v, i, j) else div[k])
  }

  lemma DivergenceFieldAt(g: Grid, div: seq<real>, u: seq<real>, v: seq<real>, i: int, j: int)
    requires g.Valid() && |div| == |u| == |v| == g.Size() && g.Interior(i, j)
    ensures DivergenceField(g, div, u, v)[g.Idx(i, j)] == ProjectionDivergence(g, u, v, i, j)
  {
    NeighbourIndices(g, i, j);
    var k := g.Idx(i, j);
    var w := DivergenceField(g, div, u, v);
    assert 0 <= k < |w|;
    assert g.Interior(g.Col(k), g.Row(k));
    assert w[k] == ProjectionDivergence(g, u, v, i, j);
  }

  /** First pass of the projection on p: the interior is reset to 0. */
  function ZeroInterior(g: Grid, p: seq<real>): (z: seq<real>)
    requires g.Valid() && |p| == g.Size()
    ensures |z| == g.Size()
  {
    seq(|p|, k requires 0 <= k < |p| => if g.Interior(g.Col(k), g.Row(k)) then 0.0 else p[k])
  }

  /** Relax pressure cell (i, j) in place from div and the current neighbours. */
  function RelaxCell(g: Grid, div: seq<real>, p: seq<real>, i: int, j: int): (p': seq<real>)
    requires g.Valid() && |div| == |p| == g.Size() && g.Interior(i, j)
    ensures |p'| == g.Size()
  {
    p[g.Idx(i, j) := PressureCell(div[g.Idx(i, j)], p[g.Idx(i + 1, j)], p[g.Idx(i - 1, j)],
                                  p[g.Idx(i, j + 1)], p[g.Idx(i, j - 1)])]
  }

  /** The mean of div and the four neighbouring pressures. */
  function PressureCell(d: real, east: real, west: real, north: real, south: real): real {
    (d + east + west + north + south) / 4.0
  }

  /** Relax cells i .. ni-2 of interior row j, left to right, each seeing the cells
      already relaxed. */
  function RelaxRow(g: Grid, div: seq<real>, p: seq<real>, i: int, j: int): (p': seq<real>)
    requires g.Valid() && |div| == |p| == g.Size() && 1 <= i && 1 <= j <= g.nj - 2
    ensures |p'| == g.Size()
    decreases g.ni - i
  {
    if i > g.ni - 2 then p else RelaxRow(g, div, RelaxCell(g, div, p, i, j), i + 1, j)
  }

  /** Relax interior rows j .. nj-2, bottom to top. */
  function RelaxRows(g: Grid, div: seq<real>, p: seq<real>, j: int): (p': seq<real>)
    requires g.Valid() && |div| == |p| == g.Size() && 1 <= j
    ensures |p'| == g.Size()
    decreases g.nj - j
  {
    if j > g.nj - 2 then p else RelaxRows(g, div, RelaxRow(g, div, p, 1, j), j + 1)
  }

  /** One in-place pressure sweep followed by the NN boundary, iterated n times. */
  function PressureIterations(g: Grid, div: seq<real>, p: seq<real>, n: int): (p': seq<real>)
    requires g.Valid() && |div| == |p| == g.Size()
    ensures |p'| == g.Size()
    decreases n
  {
    if n <= 0 then p
    else WithBoundary(g, NN, RelaxRows(g, div, PressureIterations(g, div, p, n - 1), 1))
  }

  /** The projection's gradient scale, 0.5 / dx. */
  function GradientScale(g: Grid): real
    requires g.Valid()
  {
    0.5 / g.dx
  }

  /** A velocity component less the central difference of the pressure across its
      cell, scaled by h (GradientScale in the projection). */
  function GradientCorrected(c: real, ahead: real, behind: real, h: real): real {
    c - h * (ahead - behind)
  }

  /** Last pass of the projection on u: subtract the x-derivative of p inside. */
  function SubtractGradientX(g: Grid, u: seq<real>, p: seq<real>): (u': seq<real>)
    requires g.Valid() && |u| == |p| == g.Size()
    ensures |u'| == g.Size()
  {
    seq(|u|, k requires 0 <= k < |u| =>
      var i, j := g.Col(k), g.Row(k);
      if g.Interior(i, j) then GradientCorrected(u[k], p[g.Idx(i + 1, j)], p[g.Idx(i - 1, j)], GradientScale(g))
      else u[k])
  }

  lemma SubtractGradientXAt(g: Grid, u: seq<real>, p: seq<real>, i: int, j: int)
    requires g.Valid() && |u| == |p| == g.Size() && g.Interior(i, j)
    ensures SubtractGradientX(g, u, p)[g.Idx(i, j)]
         == GradientCorrected(u[g.Idx(i, j)], p[g.Idx(i + 1, j)], p[g.Idx(i - 1, j)], GradientScale(g))
  {
    NeighbourIndices(g, i, j);
    var k := g.Idx(i, j);
    var w := SubtractGradientX(g, u, p);
    assert 0 <= k < |w|;
    assert g.Interior(g.Col(k), g.Row(k));
    var a, b := g.Idx(i + 1, j), g.Idx(i - 1, j);
    assert w[k] == GradientCorrected(u[k], p[a], p[b], GradientScale(g));
  }

  /** One step of the u pass: updating the current cell in place from its own value
      advances the pass by one cell. */
  lemma SubtractGradientXStep(g: Grid, u: seq<real>, p: seq<real>, cur: seq<real>, i: int, j: int)
    requires g.Valid() && |u| == |p| == g.Size() && g.Interior(i, j)
    requires cur == Swept(g, SubtractGradientX(g, u, p), u, i, j)
    ensures cur[g.Idx(i, j) := GradientCorrected(cur[g.Idx(i, j)], p[g.Idx(i + 1, j)], p[g.Idx(i - 1, j)], GradientScale(g))]
         == Swept(g, SubtractGradientX(g, u, p), u, i + 1, j)
  {
    var want := SubtractGradientX(g, u, p);
    SweptUnvisited(g, want, u, cur, i, j);
    SubtractGradientXAt(g, u, p, i, j);
    SweptWrite(g, want, u, cur, i, j, want[g.Idx(i, j)]);
  }

  /** Last pass of the projection on v: subtract the y-derivative of p inside. */
  function SubtractGradientY(g: Grid, v: seq<real>, p: seq<real>): (v': seq<real>)
    requires g.Valid() && |v| == |p| == g.Size()
    ensures |v'| == g.Size()
  {
    seq(|v|, k requires 0 <= k < |v| =>
      var i, j := g.Col(k), g.Row(k);
      if g.Interior(i, j) then GradientCorrected(v[k], p[g.Idx(i, j + 1)], p[g.Idx(i, j - 1)], GradientScale(g))
      else v[k])
  }

  lemma SubtractGradientYAt(g: Grid, v: seq<real>, p: seq<real>, i: int, j: int)
    requires g.Valid() && |v| == |p| == g.Size() && g.Interior(i, j)
    ensures SubtractGradientY(g, v, p)[g.Idx(i, j)]
         == GradientCorrected(v[g.Idx(i, j)], p[g.Idx(i, j + 1)], p[g.Idx(i, j - 1)], GradientScale(g))
  {
    NeighbourIndices(g, i, j);
    var k := g.Idx(i, j);
    var w := SubtractGradientY(g, v, p);
    assert 0 <= k < |w|;
    assert g.Interior(g.Col(k), g.Row(k));
    var a, b := g.Idx(i, j + 1), g.Idx(i, j - 1);
    assert w[k] == GradientCorrected(v[k], p[a], p[b], GradientScale(g));
  }



  /** One step of the v pass, as SubtractGradientXStep. */
  lemma SubtractGradientYStep(g: Grid, v: seq<real>, p: seq<real>, cur: seq<real>, i: int, j: int)
    requires g.Valid() && |v| == |p| == g.Size() && g.Interior(i, j)
    requires cur == Swept(g, SubtractGradientY(g, v, p), v, i, j)
    ensures cur[g.Idx(i, j) := GradientCorrected(cur[g.Idx(i, j)], p[g.Idx(i, j + 1)], p[g.Idx(i, j - 1)], GradientScale(g))]
         == Swept(g, SubtractGradientY(g, v, p), v, i + 1, j)
  {
    var want := SubtractGradientY(g, v, p);
    SweptUnvisited(g, want, v, cur, i, j);
    SubtractGradientYAt(g, v, p, i, j);
    SweptWrite(g, want, v, cur, i, j, want[g.Idx(i, j)]);
  }


  predicate AllZero(s: seq<real>) {
    forall k :: 0 <= k < |s| ==> s[k] == 0.0
  }

  /** Relaxing part of a row keeps a zero pressure zero when div is zero. */
  lemma {:induction false} RelaxRowKeepsZero(g: Grid, div: seq<real>, p: seq<real>, i: int, j: int)
    requires g.Valid() && |div| == |p| == g.Size() && 1 <= i && 1 <= j <= g.nj - 2
    requires AllZero(div) && AllZero(p)
    ensures AllZero(RelaxRow(g, div, p, i, j))
    decreases g.ni - i
  {
    if i <= g.ni - 2 {
      RelaxRowKeepsZero(g, div, RelaxCell(g, div, p, i, j), i + 1, j);
    }
  }

  lemma {:induction false} RelaxRowsKeepsZero(g: Grid, div: seq<real>, p: seq<real>, j: int)
    requires g.Valid() && |div| == |p| == g.Size() && 1 <= j
    requires AllZero(div) && AllZero(p)
    ensures AllZero(RelaxRows(g, div, p, j))
    decreases g.nj - j
  {
    if j <= g.nj - 2 {
      RelaxRowKeepsZero(g, div, p, 1, j);
      RelaxRowsKeepsZero(g, div, RelaxRow(g, div, p, 1, j), j + 1);
    }
  }

  /** With zero divergence the pressure solve started from zero stays zero for any
      number of iterations. */
  lemma {:induction false} PressureStaysZero(g: Grid, div: seq<real>, p: seq<real>, n: int)
    requires g.Valid() && |div| == |p| == g.Size()
    requires AllZero(div) && AllZero(p)
    ensures AllZero(PressureIterations(g, div, p, n))
    decreases n
  {
    if n > 0 {
      var prev := PressureIterations(g, div, p, n - 1);
      PressureStaysZero(g, div, p, n - 1);
      RelaxRowsKeepsZero(g, div, prev, 1);
      NNOfConstant(g, RelaxRows(g, div, prev, 1), 0.0);
    }
  }

  /** With zero divergence of (u, v) inside, the stored divergence is zero everywhere
      once its NN ring is set. */
  lemma DivergenceFieldOfDivergenceFree(g: Grid, u: seq<real>, v: seq<real>, div: seq<real>)
    requires g.Valid() && |u| == |v| == |div| == g.Size()
    requires forall i, j :: g.Interior(i, j) ==> ProjectionDivergence(g, u, v, i, j) == 0.0
    ensures AllZero(WithBoundary(g, NN, DivergenceField(g, div, u, v)))
  {
    var d := DivergenceField(g, div, u, v);
    forall i, j | g.Interior(i, j)
      ensures d[g.Idx(i, j)] == 0.0
    {
    }
    NNOfConstant(g, d, 0.0);
  }

  /** The projection leaves a divergence-free field alone: if the divergence of
      (u, v) is zero at every interior cell, the stored divergence is zero everywhere,
      the pressure stays zero everywhere for
      any iteration count, so subtracting its gradient changes neither u nor v. */
  lemma ProjectionOfDivergenceFree(g: Grid, u: seq<real>, v: seq<real>, div: seq<real>, p: seq<real>, n: int)
    requires g.Valid() && |u| == |v| == |div| == |p| == g.Size()
    requires forall i, j :: g.Interior(i, j) ==> ProjectionDivergence(g, u, v, i, j) == 0.0
    ensures AllZero(WithBoundary(g, NN, DivergenceField(g, div, u, v)))
    ensures AllZero(PressureIterations(g, WithBoundary(g, NN, DivergenceField(g, div, u, v)),
                                          WithBoundary(g, NN, ZeroInterior(g, p)), n))
    ensures SubtractGradientX(g, u, PressureIterations(g, WithBoundary(g, NN, DivergenceField(g, div, u, v)),
                                                       WithBoundary(g, NN, ZeroInterior(g, p)), n)) == u
    ensures SubtractGradientY(g, v, PressureIterations(g, WithBoundary(g, NN, DivergenceField(g, div, u, v)),
                                                       WithBoundary(g, NN, ZeroInterior(g, p)), n)) == v
  {
    DivergenceFieldOfDivergenceFree(g, u, v, div);
    var z := ZeroInterior(g, p);
    forall i, j | g.Interior(i, j)
      ensures z[g.Idx(i, j)] == 0.0
    {
    }
    NNOfConstant(g, z, 0.0);
    var pz := PressureIterations(g, WithBoundary(g, NN, DivergenceField(g, div, u, v)), WithBoundary(g, NN, z), n);
    PressureStaysZero(g, WithBoundary(g, NN, DivergenceField(g, div, u, v)), WithBoundary(g, NN, z), n);
    GradientOfZeroPressure(g, u, v, pz);
  }

  /** Subtracting the gradient of an all-zero pressure changes nothing. */
  lemma GradientOfZeroPressure(g: Grid, u: seq<real>, v: seq<real>, p: seq<real>)
    requires g.Valid() && |u| == |v| == |p| == g.Size()
    requires AllZero(p)
    ensures SubtractGradientX(g, u, p) == u
    ensures SubtractGradientY(g, v, p) == v
  {
    forall k | 0 <= k < |u|
      ensures SubtractGradientX(g, u, p)[k] == u[k] && SubtractGradientY(g, v, p)[k] == v[k]
    {
      ZeroGradientXCell(g, u, p, k);
      ZeroGradientYCell(g, v, p, k);
    }
  }

  /** GradientOfZeroPressure on u at one flat index. */
  lemma ZeroGradientXCell(g: Grid, u: seq<real>, p: seq<real>, k: int)
    requires g.Valid() && |u| == |p| == g.Size()
    requires AllZero(p) && 0 <= k < g.Size()
    ensures SubtractGradientX(g, u, p)[k] == u[k]
  {
    IdxOfCell(g, k);
    var i, j := g.Col(k), g.Row(k);
    if g.Interior(i, j) {
      SubtractGradientXAt(g, u, p, i, j);
      assert p[g.Idx(i + 1, j)] == 0.0 && p[g.Idx(i - 1, j)] == 0.0;
    }
  }

  /** GradientOfZeroPressure on v at one flat index. */
  lemma ZeroGradientYCell(g: Grid, v: seq<real>, p: seq<real>, k: int)
    requires g.Valid() && |v| == |p| == g.Size()
    requires AllZero(p) && 0 <= k < g.Size()
    ensures SubtractGradientY(g, v, p)[k] == v[k]
  {
    IdxOfCell(g, k);
    var i, j := g.Col(k), g.Row(k);
    if g.Interior(i, j) {
      SubtractGradientYAt(g, v, p, i, j);
      assert p[g.Idx(i, j + 1)] == 0.0 && p[g.Idx(i, j - 1)] == 0.0;
    }
  }

  /** A uniform velocity field has zero divergence everywhere inside. */
  lemma UniformVelocityIsDivergenceFree(g: Grid, u: seq<real>, v: seq<real>, cu: real, cv: real)
    requires g.Valid() && |u| == |v| == g.Size()
    requires forall k :: 0 <= k < |u| ==> u[k] == cu && v[k] == cv
    ensures forall i, j :: g.Interior(i, j) ==> ProjectionDivergence(g, u, v, i, j) == 0.0
  {
  }

  // ---------------------------------------------------------------- diagnostics

  /** Divergence as the diagnostic stores it: the central differences over 2 dx. */
  function CentralDivergence(g: Grid, u: seq<real>, v: seq<real>, i: int, j: int): real
    requires g.Valid() && |u| == |v| == g.Size() && g.Interior(i, j)
  {
    CentralDivergenceCell(g.dx, u[g.Idx(i + 1, j)], u[g.Idx(i - 1, j)], v[g.Idx(i, j + 1)], v[g.Idx(i, j - 1)])
  }

  /** The central differences of u across and v along a cell, over 2 dx. */
  function CentralDivergenceCell(dx: real, east: real, west: real, north: real, south: real): real
    requires dx > 0.0
  {
    (east - west + north - south) / (2.0 * dx)
  }

  /** The diagnostic pass on div: the interior receives the central divergence of
      (u, v); the ring keeps div. */
  function CentralDivergenceField(g: Grid, div: seq<real>, u: seq<real>, v: seq<real>): (d: seq<real>)
    requires g.Valid() && |div| == |u| == |v| == g.Size()
    ensures |d| == g.Size()
  {
    seq(|div|, k requires 0 <= k < |div| =>
      var i, j := g.Col(k), g.Row(k);
      if g.Interior(i, j) then CentralDivergence(g, u, v, i, j) else div[k])
  }

  lemma CentralDivergenceFieldAt(g: Grid, div: seq<real>, u: seq<real>, v: seq<real>, i: int, j: int)
    requires g.Valid() && |div| == |u| == |v| == g.Size() && g.Interior(i, j)
    ensures CentralDivergenceField(g, div, u, v)[g.Idx(i, j)] == CentralDivergence(g, u, v, i, j)
  {
    NeighbourIndices(g, i, j);
    var k := g.Idx(i, j);
    var d := CentralDivergenceField(g, div, u, v);
    assert 0 <= k < |d|;
    assert g.Interior(g.Col(k), g.Row(k));
    assert d[k] == CentralDivergence(g, u, v, i, j);
  }

  /** The points where the scan of the interior can stop: before an interior cell,
      at the end of an interior row, or after the last row. */
  predicate ScanPoint(g: Grid, i: int, j: int) {
    (1 <= j <= g.nj - 2 && 1 <= i <= g.ni - 1) || (j == g.nj - 1 && i == 1)
  }

  /** The diagnostic's running value in the scan stopped before interior cell
      (i, j): 0 at the start, then at each cell the larger of the cell's value and
      the running value. */
  function ScanMax(g: Grid, d: seq<real>, i: int, j: int): real
    requires g.Valid() && |d| == g.Size()
    requires ScanPoint(g, i, j)
    decreases j, i
  {
    if i == 1 && j == 1 then 0.0
    else if i == 1 then ScanMax(g, d, g.ni - 1, j - 1)
    else
      var m := ScanMax(g, d, i - 1, j);
      IdxInRange(g.ni, g.nj, i - 1, j);
      var x := d[g.ni * j + (i - 1)];
      if x > m then x else m
  }

  /** The running value is at least 0 and every visited value, and it is 0 or one of
      them. */
  lemma {:induction false} ScanMaxSoFar(g: Grid, d: seq<real>, i: int, j: int)
    requires g.Valid() && |d| == g.Size()
    requires ScanPoint(g, i, j)
    ensures MaxSoFar(g, d, ScanMax(g, d, i, j), i, j)
    decreases j, i
  {
    if i == 1 && j == 1 {
      MaxSoFarStart(g, d);
    } else if i == 1 {
      ScanMaxSoFar(g, d, g.ni - 1, j - 1);
      MaxSoFarNextRow(g, d, ScanMax(g, d, g.ni - 1, j - 1), j - 1);
    } else {
      ScanMaxSoFar(g, d, i - 1, j);
      MaxSoFarStep(g, d, ScanMax(g, d, i - 1, j), i - 1, j);
    }
  }

  /** The value at the end of the scan is at least 0 and every interior value, and
      it is 0 or one of them. */
  lemma ScanMaxIsMax(g: Grid, d: seq<real>)
    requires g.Valid() && |d| == g.Size()
    ensures var m := ScanMax(g, d, 1, g.nj - 1);
      && m >= 0.0
      && (forall i, j :: g.Interior(i, j) ==> d[g.Idx(i, j)] <= m)
      && (m == 0.0 || exists i, j :: g.Interior(i, j) && d[g.Idx(i, j)] == m)
  {
    ScanMaxSoFar(g, d, 1, g.nj - 1);
    MaxSoFarEnd(g, d, ScanMax(g, d, 1, g.nj - 1));
  }

  /** Row j of the diagnostic field holds the central divergence. */
  lemma CentralDivergenceRow(g: Grid, div: seq<real>, u: seq<real>, v: seq<real>, j: int)
    requires g.Valid() && |div| == |u| == |v| == g.Size() && 1 <= j <= g.nj - 2
    ensures forall i :: 1 <= i <= g.ni - 2 ==>
      CentralDivergenceField(g, div, u, v)[g.Idx(i, j)] == CentralDivergence(g, u, v, i, j)
  {
    forall i | 1 <= i <= g.ni - 2
      ensures CentralDivergenceField(g, div, u, v)[g.Idx(i, j)] == CentralDivergence(g, u, v, i, j)
    {
      CentralDivergenceFieldAt(g, div, u, v, i, j);
    }
  }

  /** The running value of the diagnostic's scan stopped before cell (i, j): m is at
      least 0 and at least every interior value of d already visited, and it is 0 or
      one of those values. */
  ghost predicate MaxSoFar(g: Grid, d: seq<real>, m: real, i: int, j: int)
    requires g.Valid() && |d| == g.Size()
  {
    && m >= 0.0
    && (forall a, b :: g.Interior(a, b) && Before(a, b, i, j) ==> d[g.Idx(a, b)] <= m)
    && (m == 0.0 || exists a, b :: g.Interior(a, b) && Before(a, b, i, j) && d[g.Idx(a, b)] == m)
  }

  lemma MaxSoFarStart(g: Grid, d: seq<real>)
    requires g.Valid() && |d| == g.Size()
    ensures MaxSoFar(g, d, 0.0, 1, 1)
  {
  }

  /** Taking the larger of m and the value at (i, j) advances the scan by one cell. */
  lemma MaxSoFarStep(g: Grid, d: seq<real>, m: real, i: int, j: int)
    requires g.Valid() && |d| == g.Size() && g.Interior(i, j)
    requires MaxSoFar(g, d, m, i, j)
    ensures MaxSoFar(g, d, if d[g.Idx(i, j)] > m then d[g.Idx(i, j)] else m, i + 1, j)
  {
    var m' := if d[g.Idx(i, j)] > m then d[g.Idx(i, j)] else m;
    forall a, b | g.Interior(a, b) && Before(a, b, i + 1, j)
      ensures d[g.Idx(a, b)] <= m'
    {
      if !Before(a, b, i, j) {
        assert a == i && b == j;
      }
    }
    if m' != 0.0 {
      if d[g.Idx(i, j)] > m {
        assert g.Interior(i, j) && Before(i, j, i + 1, j) && d[g.Idx(i, j)] == m';
      } else {
        var a, b :| g.Interior(a, b) && Before(a, b, i, j) && d[g.Idx(a, b)] == m;
        assert Before(a, b, i + 1, j);
      }
    }
  }

  /** The end of an interior row is the start of the next. */
  lemma MaxSoFarNextRow(g: Grid, d: seq<real>, m: real, j: int)
    requires g.Valid() && |d| == g.Size()
    requires MaxSoFar(g, d, m, g.ni - 1, j)
    ensures MaxSoFar(g, d, m, 1, j + 1)
  {
    forall a, b | g.Interior(a, b) && Before(a, b, 1, j + 1)
      ensures d[g.Idx(a, b)] <= m
    {
      assert Before(a, b, g.ni - 1, j);
    }
    if m != 0.0 {
      var a, b :| g.Interior(a, b) && Before(a, b, g.ni - 1, j) && d[g.Idx(a, b)] == m;
      assert Before(a, b, 1, j + 1);
    }
  }

  /** After the last interior row the scan has seen every interior cell. */
  lemma MaxSoFarEnd(g: Grid, d: seq<real>, m: real)
    requires g.Valid() && |d| == g.Size()
    requires MaxSoFar(g, d, m, 1, g.nj - 1)
    ensures m >= 0.0
    ensures forall i, j :: g.Interior(i, j) ==> d[g.Idx(i, j)] <= m
    ensures m == 0.0 || exists i, j :: g.Interior(i, j) && d[g.Idx(i, j)] == m
  {
    forall i, j | g.Interior(i, j)
      ensures d[g.Idx(i, j)] <= m
    {
      assert Before(i, j, 1, g.nj - 1);
    }
  }

  /** The projection's divergence is the diagnostic's scaled by -dx^2. */
  lemma DivergenceScales(g: Grid, u: seq<real>, v: seq<real>, i: int, j: int)
    requires g.Valid() && |u| == |v| == g.Size() && g.Interior(i, j)
    ensures ProjectionDivergence(g, u, v, i, j) == -(g.dx * g.dx) * CentralDivergence(g, u, v, i, j)
  {
    var d := u[g.Idx(i + 1, j)] - u[g.Idx(i - 1, j)] + v[g.Idx(i, j + 1)] - v[g.Idx(i, j - 1)];
    assert CentralDivergence(g, u, v, i, j) == d / (2.0 * g.dx);
    assert d / (2.0 * g.dx) * (2.0 * g.dx) == d;
  }

  // ---------------------------------------------------------------- vorticity

  /** Magnitude guard of the gradient normalisation: |x|. */
  function Abs(x: real): (r: real)
    ensures r >= 0.0 && (r == x || r == -x)
  {
    if x < 0.0 then -x else x
  }

  /** The central-difference scale of the vorticity passes, a = 1 / (2 dx). */
  function CentralScale(g: Grid): real
    requires g.Valid()
  {
    1.0 / (2.0 * g.dx)
  }

  /** a times the difference of the v-difference across and the u-difference along a cell. */
  function CurlCell(a: real, vEast: real, vWest: real, uNorth: real, uSouth: real): real {
    a * ((vEast - vWest) - (uNorth - uSouth))
  }

  /** Discrete curl of (u, v) at an interior cell. */
  function Curl(g: Grid, u: seq<real>, v: seq<real>, i: int, j: int): real
    requires g.Valid() && |u| == |v| == g.Size() && g.Interior(i, j)
  {
    CurlCell(CentralScale(g), v[g.Idx(i + 1, j)], v[g.Idx(i - 1, j)], u[g.Idx(i, j + 1)], u[g.Idx(i, j - 1)])
  }

  /** First pass of vorticity confinement: the interior of w receives the curl of
      (u, v); the ring keeps w. */
  function CurlField(g: Grid, w: seq<real>, u: seq<real>, v: seq<real>): (r: seq<real>)
    requires g.Valid() && |w| == |u| == |v| == g.Size()
    ensures |r| == g.Size()
  {
    seq(|w|, k requires 0 <= k < |w| =>
      var i, j := g.Col(k), g.Row(k);
      if g.Interior(i, j) then Curl(g, u, v, i, j) else w[k])
  }

  lemma CurlFieldAt(g: Grid, w: seq<real>, u: seq<real>, v: seq<real>, i: int, j: int)
    requires g.Valid() && |w| == |u| == |v| == g.Size() && g.Interior(i, j)
    ensures CurlField(g, w, u, v)[g.Idx(i, j)] == Curl(g, u, v, i, j)
  {
    NeighbourIndices(g, i, j);
    var k := g.Idx(i, j);
    var r := CurlField(g, w, u, v);
    assert 0 <= k < |r|;
    assert g.Interior(g.Col(k), g.Row(k));
    assert r[k] == Curl(g, u, v, i, j);
  }

  /** a times the difference of the magnitudes ahead of and behind a cell. */
  function GradientCell(a: real, ahead: real, behind: real): real {
    a * (Abs(ahead) - Abs(behind))
  }

  /** x-component of the gradient of |w| at an interior cell. */
  function AbsGradientX(g: Grid, w: seq<real>, i: int, j: int): real
    requires g.Valid() && |w| == g.Size() && g.Interior(i, j)
  {
    GradientCell(CentralScale(g), w[g.Idx(i + 1, j)], w[g.Idx(i - 1, j)])
  }

  /** y-component of the gradient of |w| at an interior cell. */
  function AbsGradientY(g: Grid, w: seq<real>, i: int, j: int): real
    requires g.Valid() && |w| == g.Size() && g.Interior(i, j)
  {
    GradientCell(CentralScale(g), w[g.Idx(i, j + 1)], w[g.Idx(i, j - 1)])
  }

  /** One gradient component divided by the guarded gradient magnitude m + tiny. */
  function NormalizedCell(c: real, m: real, tiny: real): real
    requires m + tiny != 0.0
  {
    c / (m + tiny)
  }

  /** Second pass: the interior of n receives one component of the normalised
      gradient of |w|, the other component picked by xAxis; norm stands for the
      Euclidean length and tiny for the guard added to it. */
  function NormalizedGradient(g: Grid, n: seq<real>, w: seq<real>, norm: (real, real) -> real, tiny: real, xAxis: bool): (r: seq<real>)
    requires g.Valid() && |n| == |w| == g.Size()
    requires tiny > 0.0 && forall x, y :: norm(x, y) >= 0.0
    ensures |r| == g.Size()
  {
    seq(|n|, k requires 0 <= k < |n| =>
      var i, j := g.Col(k), g.Row(k);
      if g.Interior(i, j) then
        var gx, gy := AbsGradientX(g, w, i, j), AbsGradientY(g, w, i, j);
        NormalizedCell(if xAxis then gx else gy, norm(gx, gy), tiny)
      else n[k])
  }

  lemma NormalizedGradientAt(g: Grid, n: seq<real>, w: seq<real>, norm: (real, real) -> real, tiny: real, xAxis: bool, i: int, j: int)
    requires g.Valid() && |n| == |w| == g.Size() && g.Interior(i, j)
    requires tiny > 0.0 && forall x, y :: norm(x, y) >= 0.0
    ensures var gx, gy := AbsGradientX(g, w, i, j), AbsGradientY(g, w, i, j);
      NormalizedGradient(g, n, w, norm, tiny, xAxis)[g.Idx(i, j)] == NormalizedCell(if xAxis then gx else gy, norm(gx, gy), tiny)
  {
    NeighbourIndices(g, i, j);
    var k := g.Idx(i, j);
    var r := NormalizedGradient(g, n, w, norm, tiny, xAxis);
    assert 0 <= k < |r|;
    assert g.Interior(g.Col(k), g.Row(k));
    var gx, gy := AbsGradientX(g, w, i, j), AbsGradientY(g, w, i, j);
    assert r[k] == NormalizedCell(if xAxis then gx else gy, norm(gx, gy), tiny);
  }

  /** The confinement strength b = eps dt dx. */
  function ConfinementStrength(g: Grid, eps: real, dt: real): real
    requires g.Valid()
  {
    eps * dt * g.dx
  }

  /** A velocity component moved by b w times the normalised gradient component nc,
      with the sign s. */
  function ConfinedCell(c: real, b: real, w: real, nc: real, s: real): real {
    c + s * (b * w * nc)
  }

  /** Third pass: the interior of a velocity component moves by b w nc with the sign
      s (+1 for u, which reads the y-component; -1 for v, which reads the x-component). */
  function Confined(g: Grid, c: seq<real>, w: seq<real>, nc: seq<real>, b: real, s: real): (r: seq<real>)
    requires g.Valid() && |c| == |w| == |nc| == g.Size()
    ensures |r| == g.Size()
  {
    seq(|c|, k requires 0 <= k < |c| =>
      if g.Interior(g.Col(k), g.Row(k)) then ConfinedCell(c[k], b, w[k], nc[k], s) else c[k])
  }

  lemma ConfinedAt(g: Grid, c: seq<real>, w: seq<real>, nc: seq<real>, b: real, s: real, i: int, j: int)
    requires g.Valid() && |c| == |w| == |nc| == g.Size() && g.Interior(i, j)
    ensures var k := g.Idx(i, j); Confined(g, c, w, nc, b, s)[k] == ConfinedCell(c[k], b, w[k], nc[k], s)
  {
    var k := g.Idx(i, j);
    assert g.Interior(g.Col(k), g.Row(k));
  }

  /** Where the vorticity is zero inside, confinement changes nothing. */
  lemma ConfinementWithoutVorticity(g: Grid, c: seq<real>, w: seq<real>, nc: seq<real>, b: real, s: real)
    requires g.Valid() && |c| == |w| == |nc| == g.Size()
    requires forall i, j :: g.Interior(i, j) ==> w[g.Idx(i, j)] == 0.0
    ensures Confined(g, c, w, nc, b, s) == c
  {
    forall k | 0 <= k < |c|
      ensures Confined(g, c, w, nc, b, s)[k] == c[k]
    {
      IdxOfCell(g, k);
    }
  }

  /** Each normalised gradient component lies in [-1, 1] when norm bounds the
      absolute value of both components. */
  lemma NormalizedGradientBounded(g: Grid, n: seq<real>, w: seq<real>, norm: (real, real) -> real, tiny: real, xAxis: bool)
    requires g.Valid() && |n| == |w| == g.Size()
    requires tiny > 0.0 && forall x, y :: norm(x, y) >= 0.0
    requires forall x, y :: Abs(x) <= norm(x, y) && Abs(y) <= norm(x, y)
    ensures forall i, j :: g.Interior(i, j) ==>
      -1.0 <= NormalizedGradient(g, n, w, norm, tiny, xAxis)[g.Idx(i, j)] <= 1.0
  {
    forall i, j | g.Interior(i, j)
      ensures -1.0 <= NormalizedGradient(g, n, w, norm, tiny, xAxis)[g.Idx(i, j)] <= 1.0
    {
      var gx, gy := AbsGradientX(g, w, i, j), AbsGradientY(g, w, i, j);
      QuotientBounded(if xAxis then gx else gy, norm(gx, gy) + tiny);
    }
  }

  lemma QuotientBounded(x: real, d: real)
    requires d > 0.0 && Abs(x) <= d
    ensures -1.0 <= x / d <= 1.0
  {
    if x >= 0.0 {
      assert x / d * d == x;
    } else {
      assert (-x) / d * d == -x;
      assert x / d == -((-x) / d);
    }
  }

  /** A uniform velocity field has no curl. */
  lemma UniformVelocityHasNoCurl(g: Grid, u: seq<real>, v: seq<real>, i: int, j: int)
    requires g.Valid() && |u| == |v| == g.Size() && g.Interior(i, j)
    requires forall k :: 0 <= k < |u| ==> u[k] == u[0] && v[k] == v[0]
    ensures Curl(g, u, v, i, j) == 0.0
  {
  }
}
