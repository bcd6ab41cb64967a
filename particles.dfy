/** The particle ring buffer. Live particles occupy `count` consecutive slots of two
    parallel buffers (two coordinates per slot in `positions`, one value per slot in
    `lifetimes`), starting at slot `start` and wrapping around at `capacity`.
    Emission appends after the last live particle; expiry removes from the head. */
module Particles {
  import opened FluidGrid

  /** One particle as the buffers hold it. */
  datatype Particle = Particle(x: real, y: real, life: real)

  /** A raster point, relative to the emitter centre. */
  datatype Offset = Offset(x: real, y: real)

  /** The buffers and counters of the ring, as one value. */
  datatype Ring = Ring(positions: seq<real>, lifetimes: seq<real>, count: nat, capacity: nat, start: nat)
  {
    predicate Valid() {
      && |positions| == 2 * capacity
      && |lifetimes| == capacity
      && count <= capacity
      && (if capacity == 0 then start == 0 else start < capacity)
    }

    /** The slot of the k-th live particle, counted from the head. */
    function Slot(k: nat): (s: nat)
      requires Valid() && capacity > 0
      ensures s < capacity
    {
      (start + k) % capacity
    }

    /** The particle stored in slot s. */
    function At(s: nat): Particle
      requires Valid() && s < capacity
    {
      Particle(positions[2 * s], positions[2 * s + 1], lifetimes[s])
    }

    /** The live particles, head first. */
    function Live(): (l: seq<Particle>)
      requires Valid()
      ensures |l| == count
    {
      seq(count, k requires 0 <= k < count => At(Slot(k)))
    }
  }

  // ---------------------------------------------------------------------------
  // Arithmetic of slot indices

  /** Euclidean remainder is determined by any decomposition with a remainder in range. */
  lemma ModOfDecomposition(c: int, q: int, m: int)
    requires c > 0 && 0 <= m < c
    ensures (c * q + m) % c == m
  {
    var k := c * q + m;
    var q', r := k / c, k % c;
    assert k == c * q' + r && 0 <= r < c;
    assert c * (q' - q) == m - r;
    if q' > q {
      MulMonotone(c, 1, q' - q);
    } else if q' < q {
      MulMonotone(c, 1, q - q');
    }
  }

  /** Advancing a slot that is already reduced modulo c is advancing the unreduced one. */
  lemma SlotShift(s: nat, t: nat, c: nat)
    requires c > 0
    ensures (s % c + t) % c == (s + t) % c
  {
    var m := (s % c + t) % c;
    var q2 := (s % c + t) / c;
    assert s % c + t == c * q2 + m && 0 <= m < c;
    assert s == c * (s / c) + s % c;
    assert s + t == c * (s / c + q2) + m;
    ModOfDecomposition(c, s / c + q2, m);
  }

  /** Fewer than c consecutive positions fall into distinct slots. */
  lemma SlotsDistinct(s: nat, a: nat, b: nat, c: nat)
    requires a < b < c
    ensures (s + a) % c != (s + b) % c
  {
    var x, y := s + a, s + b;
    if x % c == y % c {
      assert x == c * (x / c) + x % c;
      assert y == c * (y / c) + y % c;
      assert c * (y / c - x / c) == b - a;
      if y / c - x / c >= 1 {
        MulMonotone(c, 1, y / c - x / c);
      } else {
        MulMonotone(c, 0, x / c - y / c);
      }
    }
  }

  /** A position below c is its own slot. */
  lemma SlotBelowCapacity(x: nat, c: nat)
    requires x < c
    ensures x % c == x
  {
    ModOfDecomposition(c, 0, x);
  }

  // ---------------------------------------------------------------------------
  // Growth

  function Zeros(n: nat): (z: seq<real>)
    ensures |z| == n && forall k :: 0 <= k < n ==> z[k] == 0.0
  {
    seq(n, _ => 0.0)
  }

  /** The ring after its buffers are reallocated to c slots: the old contents stay
      in place and the counters are untouched. New slots hold zero, as the first
      allocation does; what the reallocation leaves there is not modelled. */
  function Grown(r: Ring, c: nat): (g: Ring)
    requires r.Valid() && r.capacity <= c
    ensures g.Valid() && g.capacity == c && g.count == r.count && g.start == r.start
  {
    r.(positions := r.positions + Zeros(2 * (c - r.capacity)),
       lifetimes := r.lifetimes + Zeros(c - r.capacity),
       capacity := c)
  }

  /** Growing in two steps is growing once. */
  lemma GrownTwice(r: Ring, c1: nat, c2: nat)
    requires r.Valid() && r.capacity <= c1 <= c2
    ensures Grown(Grown(r, c1), c2) == Grown(r, c2)
  {
    assert Zeros(2 * (c1 - r.capacity)) + Zeros(2 * (c2 - c1)) == Zeros(2 * (c2 - r.capacity));
    assert Zeros(c1 - r.capacity) + Zeros(c2 - c1) == Zeros(c2 - r.capacity);
  }

  /** The doubling loop ends: a positive capacity, or one that already fits
      (GrowthTerminatesExactly). */
  predicate GrowthTerminates(present: bool, capacity: nat, count: nat, n: nat) {
    !present || capacity > 0 || count + n <= capacity
  }

  /** The capacity the doubling loop stops at, starting from c, to fit need slots. */
  function GrownCapacity(c: nat, need: nat): (c': nat)
    requires c > 0 || need <= c
    ensures c' >= c && c' >= need
    decreases need - c
  {
    if need <= c then c else GrownCapacity(2 * c, need)
  }

  /** The capacity after reallocating for n more particles: a first call allocates
      exactly n slots, then the loop doubles until count + n fit. */
  function ReallocCapacity(present: bool, capacity: nat, count: nat, n: nat): (c': nat)
    requires GrowthTerminates(present, capacity, count, n) && (present || count == 0)
    ensures c' >= count + n
    ensures present ==> c' >= capacity
  {
    if present then GrownCapacity(capacity, count + n) else GrownCapacity(n, count + n)
  }

  function Pow2(e: nat): (p: nat)
    ensures p >= 1
  {
    if e == 0 then 1 else 2 * Pow2(e - 1)
  }

  /** Growth only ever multiplies the capacity by a power of two. */
  lemma {:induction false} GrownCapacityDoubles(c: nat, need: nat)
    requires c > 0 || need <= c
    ensures exists e: nat :: GrownCapacity(c, need) == c * Pow2(e)
    decreases need - c
  {
    if need <= c {
      assert GrownCapacity(c, need) == c * Pow2(0);
    } else {
      GrownCapacityDoubles(2 * c, need);
      var e: nat :| GrownCapacity(2 * c, need) == 2 * c * Pow2(e);
      var m := Pow2(e);
      assert Pow2(e + 1) == 2 * m;
      assert 2 * c * m == c * (2 * m);
      assert GrownCapacity(c, need) == c * Pow2(e + 1);
    }
  }

  /** Growth stops at the first doubling that fits: a capacity that grew is below
      twice the need. */
  lemma {:induction false} GrownCapacityTight(c: nat, need: nat)
    requires c > 0 || need <= c
    ensures GrownCapacity(c, need) == c || GrownCapacity(c, need) < 2 * need
    decreases need - c
  {
    if need > c {
      GrownCapacityTight(2 * c, need);
    }
  }

  /** The capacity after e passes of the doubling loop's body, which doubles it. */
  function Doubled(c: nat, e: nat): nat {
    if e == 0 then c else 2 * Doubled(c, e - 1)
  }

  /** The capacity the doubling loop starts from: n after a first allocation,
      otherwise the capacity the buffers already have. */
  function LoopStart(present: bool, capacity: nat, n: nat): nat {
    if present then capacity else n
  }

  /** A capacity of zero never grows: once a first call for zero particles leaves
      it at zero, a later call for any particle would double forever. */
  lemma {:induction false} DoublingFromZeroStaysZero(e: nat, n: nat)
    requires n > 0
    ensures Doubled(0, e) == 0 < n
    decreases e
  {
    if e > 0 {
      DoublingFromZeroStaysZero(e - 1, n);
    }
  }

  /** Each pass adds at least one slot to a positive capacity. */
  lemma {:induction false} DoubledGrows(c: nat, e: nat)
    requires c > 0
    ensures Doubled(c, e) >= c + e
    decreases e
  {
    if e > 0 {
      DoubledGrows(c, e - 1);
    }
  }

  /** GrowthTerminates is exactly the condition under which the doubling loop
      exits: some number of passes from its starting capacity fits count + n. */
  lemma GrowthTerminatesExactly(present: bool, capacity: nat, count: nat, n: nat)
    requires present || count == 0
    ensures GrowthTerminates(present, capacity, count, n) <==>
            exists e: nat :: count + n <= Doubled(LoopStart(present, capacity, n), e)
  {
    var c := LoopStart(present, capacity, n);
    if GrowthTerminates(present, capacity, count, n) {
      if c > 0 {
        DoubledGrows(c, count + n);
        assert count + n <= Doubled(c, count + n);
      } else {
        assert count + n <= Doubled(c, 0);
      }
    } else {
      forall e: nat
        ensures Doubled(c, e) < count + n
      {
        DoublingFromZeroStaysZero(e, count + n);
      }
    }
  }

  /** Growth keeps every slot below the old capacity. */
  lemma GrowthKeepsOldSlots(r: Ring, c: nat, s: nat)
    requires r.Valid() && r.capacity <= c && s < r.capacity
    ensures Grown(r, c).At(s) == r.At(s)
  {
  }

  /** A ring that does not wrap keeps its live particles, in order, across growth. */
  lemma GrowthPreservesUnwrapped(r: Ring, c: nat)
    requires r.Valid() && r.capacity <= c && r.start + r.count <= r.capacity
    ensures Grown(r, c).Live() == r.Live()
  {
    var g := Grown(r, c);
    forall k | 0 <= k < r.count
      ensures g.Live()[k] == r.Live()[k]
    {
      SlotBelowCapacity(r.start + k, r.capacity);
      SlotBelowCapacity(r.start + k, c);
    }
  }

  /** A wrapped ring is not re-laid-out: after real growth, the first particle that
      had wrapped round to slot 0 is read from the first new slot instead. */
  lemma GrowthReordersWrapped(r: Ring, c: nat)
    requires r.Valid() && r.capacity < c && r.start + r.count > r.capacity
    ensures r.capacity - r.start < r.count
    ensures r.Live()[r.capacity - r.start] == r.At(0)
    ensures Grown(r, c).Live()[r.capacity - r.start] == Grown(r, c).At(r.capacity)
  {
    var k := r.capacity - r.start;
    ModOfDecomposition(r.capacity, 1, 0);
    SlotBelowCapacity(r.capacity, c);
    assert r.Slot(k) == 0;
  }

  /** A concrete wrapped ring whose live sequence growth changes. */
  lemma GrowthReordersExample()
    ensures var r := Ring([1.0, 1.0, 2.0, 2.0], [1.0, 2.0], 2, 2, 1);
            r.Valid() && Grown(r, 4).Live() != r.Live()
  {
    var r := Ring([1.0, 1.0, 2.0, 2.0], [1.0, 2.0], 2, 2, 1);
    GrowthReordersWrapped(r, 4);
    assert r.Live()[1] == Particle(1.0, 1.0, 1.0);
    assert Grown(r, 4).Live()[1] == Particle(0.0, 0.0, 0.0);
  }

  // ---------------------------------------------------------------------------
  // Emission

  /** Whether a raster point lies in the closed emitter disc of radius r. */
  predicate Inside(o: Offset, r: real) {
    o.x * o.x + o.y * o.y <= r * r
  }

  /** Raster point (i, j) of a square raster of step dx centred on the emitter. */
  function RasterPoint(dx: real, r: real, i: nat, j: nat): Offset {
    Offset(i as real * dx - r, j as real * dx - r)
  }

  /** The points of column i, rows 0 .. rows-1, that lie in the disc, in loop order. */
  function RasterColumn(dx: real, r: real, i: nat, rows: nat): (os: seq<Offset>)
    ensures |os| <= rows
    decreases rows
  {
    if rows == 0 then []
    else
      var o := RasterPoint(dx, r, i, rows - 1);
      RasterColumn(dx, r, i, rows - 1) + (if Inside(o, r) then [o] else [])
  }

  /** The points of columns 0 .. columns-1 of a raster with max rows that lie in
      the disc, in loop order: columns outer, rows inner. */
  function Raster(dx: real, r: real, max: nat, columns: nat): (os: seq<Offset>)
    decreases columns
  {
    if columns == 0 then []
    else Raster(dx, r, max, columns - 1) + RasterColumn(dx, r, columns - 1, max)
  }

  /** The raster has at most one point per grid point visited. */
  lemma {:induction false} RasterSize(dx: real, r: real, max: nat, columns: nat)
    ensures |Raster(dx, r, max, columns)| <= columns * max
    decreases columns
  {
    if columns > 0 {
      RasterSize(dx, r, max, columns - 1);
      assert (columns - 1) * max + max == columns * max;
    }
  }

  /** Every point of a column's raster lies in the disc. */
  lemma {:induction false} RasterColumnInside(dx: real, r: real, i: nat, rows: nat)
    ensures forall k :: 0 <= k < |RasterColumn(dx, r, i, rows)| ==> Inside(RasterColumn(dx, r, i, rows)[k], r)
    decreases rows
  {
    if rows > 0 {
      RasterColumnInside(dx, r, i, rows - 1);
    }
  }

  /** Every point of the raster lies in the disc. */
  lemma {:induction false} RasterInside(dx: real, r: real, max: nat, columns: nat)
    ensures forall k :: 0 <= k < |Raster(dx, r, max, columns)| ==> Inside(Raster(dx, r, max, columns)[k], r)
    decreases columns
  {
    if columns > 0 {
      RasterInside(dx, r, max, columns - 1);
      RasterColumnInside(dx, r, columns - 1, max);
    }
  }

  /** A point is in a column's raster exactly when one of its rows lands on it inside the disc. */
  lemma {:induction false} RasterColumnMembers(dx: real, r: real, i: nat, rows: nat, o: Offset)
    ensures o in RasterColumn(dx, r, i, rows) <==>
            exists j :: 0 <= j < rows && o == RasterPoint(dx, r, i, j) && Inside(o, r)
    decreases rows
  {
    if rows > 0 {
      RasterColumnMembers(dx, r, i, rows - 1, o);
    }
  }

  /** A point is in the raster exactly when it is in the raster of one of its columns. */
  lemma {:induction false} RasterColumnsMembers(dx: real, r: real, max: nat, columns: nat, o: Offset)
    ensures o in Raster(dx, r, max, columns) <==>
            exists i :: 0 <= i < columns && o in RasterColumn(dx, r, i, max)
    decreases columns
  {
    if columns > 0 {
      var pre, col := Raster(dx, r, max, columns - 1), RasterColumn(dx, r, columns - 1, max);
      assert Raster(dx, r, max, columns) == pre + col;
      RasterColumnsMembers(dx, r, max, columns - 1, o);
      if o in col {
        assert 0 <= columns - 1 < columns && o in RasterColumn(dx, r, columns - 1, max);
      }
      if o !in pre + col {
        forall i | 0 <= i < columns
          ensures o !in RasterColumn(dx, r, i, max)
        {
          if i == columns - 1 {
            assert RasterColumn(dx, r, i, max) == col;
          }
        }
      }
    }
  }

  /** A point is in the raster exactly when some grid point (i, j) lands on it inside the disc. */
  lemma RasterMembers(dx: real, r: real, max: nat, columns: nat, o: Offset)
    ensures o in Raster(dx, r, max, columns) <==>
            exists i, j :: 0 <= i < columns && 0 <= j < max && o == RasterPoint(dx, r, i, j) && Inside(o, r)
  {
    RasterColumnsMembers(dx, r, max, columns, o);
    forall i | 0 <= i < columns {
      RasterColumnMembers(dx, r, i, max, o);
    }
  }

  /** The raster prefix the emission loop has visited at (i, j) has at most i*max + j
      points, so it fits whenever the whole raster does. */
  lemma RasterPrefixFits(dx: real, r: real, max: nat, i: nat, j: nat)
    requires i < max && j <= max
    ensures |Raster(dx, r, max, i) + RasterColumn(dx, r, i, j)| <= max * max
  {
    RasterSize(dx, r, max, i);
    MulMonotone(max, i, max - 1);
    assert max * (max - 1) + max == max * max;
  }

  /** One more pass of the inner raster loop adds point (i, j) when it is inside. */
  lemma RasterPrefixStep(dx: real, r: real, max: nat, i: nat, j: nat)
    ensures var o := RasterPoint(dx, r, i, j);
            Raster(dx, r, max, i) + RasterColumn(dx, r, i, j) + (if Inside(o, r) then [o] else [])
            == Raster(dx, r, max, i) + RasterColumn(dx, r, i, j + 1)
  {
  }

  /** The particle emitted at a raster point. */
  function Emitted(o: Offset, ex: real, ey: real, life: real): Particle {
    Particle(ex + o.x, ey + o.y, life)
  }

  function EmittedAll(os: seq<Offset>, ex: real, ey: real, life: real): (ps: seq<Particle>)
    ensures |ps| == |os|
  {
    seq(|os|, k requires 0 <= k < |os| => Emitted(os[k], ex, ey, life))
  }

  lemma EmittedAllAppend(os: seq<Offset>, extra: seq<Offset>, ex: real, ey: real, life: real)
    ensures EmittedAll(os + extra, ex, ey, life) == EmittedAll(os, ex, ey, life) + EmittedAll(extra, ex, ey, life)
  {
  }

  /** Every particle an emission places carries the configured lifetime and lies
      within distance r of the emitter centre. */
  lemma EmittedWithinDisc(dx: real, r: real, max: nat, ex: real, ey: real, life: real)
    ensures var ps := EmittedAll(Raster(dx, r, max, max), ex, ey, life);
            forall k :: 0 <= k < |ps| ==>
              ps[k].life == life &&
              (ps[k].x - ex) * (ps[k].x - ex) + (ps[k].y - ey) * (ps[k].y - ey) <= r * r
  {
    var os := Raster(dx, r, max, max);
    var ps := EmittedAll(os, ex, ey, life);
    forall k | 0 <= k < |ps|
      ensures (ps[k].x - ex) * (ps[k].x - ex) + (ps[k].y - ey) * (ps[k].y - ey) <= r * r
    {
      assert ps[k].x - ex == os[k].x && ps[k].y - ey == os[k].y;
      RasterInside(dx, r, max, max);
    }
  }

  /** The ring after one particle is written into the slot after the last live one. */
  function Appended(r: Ring, p: Particle): Ring
    requires r.Valid() && r.count < r.capacity
  {
    var s := r.Slot(r.count);
    r.(positions := r.positions[2 * s := p.x][2 * s + 1 := p.y],
       lifetimes := r.lifetimes[s := p.life],
       count := r.count + 1)
  }

  /** Appending adds p at the tail of the live sequence and moves nothing else. */
  lemma AppendedLive(r: Ring, p: Particle)
    requires r.Valid() && r.count < r.capacity
    ensures Appended(r, p).Valid()
    ensures Appended(r, p).capacity == r.capacity && Appended(r, p).start == r.start
    ensures Appended(r, p).Live() == r.Live() + [p]
  {
    var a := Appended(r, p);
    var s := r.Slot(r.count);
    assert a.Slot(r.count) == s;
    assert a.At(s) == p;
    forall k | 0 <= k < r.count
      ensures a.Live()[k] == r.Live()[k]
    {
      assert a.Slot(k) == r.Slot(k);
      SlotsDistinct(r.start, k, r.count, r.capacity);
      assert a.At(r.Slot(k)) == r.At(r.Slot(k));
    }
    assert a.Live() == r.Live() + [p];
  }

  /** The ring after the particles ps are appended one by one. */
  function AppendedAll(r: Ring, ps: seq<Particle>): (a: Ring)
    requires r.Valid() && r.count + |ps| <= r.capacity
    ensures a.Valid() && a.capacity == r.capacity && a.start == r.start
    ensures a.count == r.count + |ps|
    decreases |ps|
  {
    if ps == [] then r
    else
      var b := AppendedAll(r, ps[..|ps| - 1]);
      AppendedLive(b, ps[|ps| - 1]);
      Appended(b, ps[|ps| - 1])
  }

  /** Appending ps one by one adds them at the tail of the live sequence, in order. */
  lemma {:induction false} AppendedAllLive(r: Ring, ps: seq<Particle>)
    requires r.Valid() && r.count + |ps| <= r.capacity
    ensures AppendedAll(r, ps).Live() == r.Live() + ps
    decreases |ps|
  {
    if ps != [] {
      var front := ps[..|ps| - 1];
      AppendedAllLive(r, front);
      AppendedLive(AppendedAll(r, front), ps[|ps| - 1]);
      assert ps == front + [ps[|ps| - 1]];
    }
  }

  /** Appending one more emitted particle extends the appended sequence by one. */
  lemma AppendedAllStep(r: Ring, os: seq<Offset>, o: Offset, ex: real, ey: real, life: real)
    requires r.Valid() && r.count + |os| < r.capacity
    ensures AppendedAll(r, EmittedAll(os + [o], ex, ey, life))
         == Appended(AppendedAll(r, EmittedAll(os, ex, ey, life)), Emitted(o, ex, ey, life))
  {
    var ps := EmittedAll(os, ex, ey, life);
    EmittedAllAppend(os, [o], ex, ey, life);
    assert (ps + [Emitted(o, ex, ey, life)])[..|ps|] == ps;
  }

  /** Emitting into a ring that does not wrap appends the new particles after the
      old ones, which keep their order. */
  lemma EmitAppendsToUnwrapped(r: Ring, c: nat, ps: seq<Particle>)
    requires r.Valid() && r.capacity <= c && r.start + r.count <= r.capacity
    requires r.count + |ps| <= c
    ensures AppendedAll(Grown(r, c), ps).Live() == r.Live() + ps
  {
    GrowthPreservesUnwrapped(r, c);
    AppendedAllLive(Grown(r, c), ps);
  }

  // ---------------------------------------------------------------------------
  // Advection

  /** One component of a velocity field, as a function of the world position. */
  type Velocity = (real, real) -> real

  /** The velocity component the fluid field q gives at each point: its bilinear sample. */
  function Sampler(g: Grid, q: seq<real>): Velocity
    requires g.Valid() && |q| == g.Size()
  {
    (x: real, y: real) => Sample(g, q, x, y)
  }

  /** The ring after one pass of the advection loop over slot s: the particle there
      moves by dt times the velocity sampled at its position and ages by dt; when its
      lifetime falls below zero the head is dropped. */
  function AdvectOne(fu: Velocity, fv: Velocity, dt: real, r: Ring, s: nat): Ring
    requires r.Valid() && s < r.capacity && r.count > 0
  {
    var px, py := r.positions[2 * s], r.positions[2 * s + 1];
    Moved(r, s, fu(px, py), fv(px, py), dt)
  }

  /** The ring after the particle in slot s moves with velocity (velX, velY) for dt
      and ages by dt, dropping the head if that lifetime falls below zero. */
  function Moved(r: Ring, s: nat, velX: real, velY: real, dt: real): Ring
    requires r.Valid() && s < r.capacity && r.count > 0
  {
    var px, py := r.positions[2 * s], r.positions[2 * s + 1];
    var life := r.lifetimes[s] - dt;
    var moved := r.(positions := r.positions[2 * s := px + velX * dt][2 * s + 1 := py + velY * dt],
                    lifetimes := r.lifetimes[s := life]);
    if life < 0.0 then moved.(start := (r.start + 1) % r.capacity, count := r.count - 1) else moved
  }

  /** Particle p after it moves for dt with the fluid velocity (u, v) sampled at its
      position and ages by dt. */
  function Advected(fu: Velocity, fv: Velocity, dt: real, p: Particle): Particle
  {
    Particle(p.x + fu(p.x, p.y) * dt, p.y + fv(p.x, p.y) * dt, p.life - dt)
  }

  /** Moving slot s changes that particle and no other; an expiry drops one particle
      from the head, anything else leaves the counters alone. */
  lemma MovedEffect(r: Ring, s: nat, velX: real, velY: real, dt: real)
    requires r.Valid() && s < r.capacity && r.count > 0
    ensures var a := Moved(r, s, velX, velY, dt);
            var p := r.At(s);
            && a.Valid() && a.capacity == r.capacity
            && a.At(s) == Particle(p.x + velX * dt, p.y + velY * dt, p.life - dt)
            && (forall t :: 0 <= t < r.capacity && t != s ==> a.At(t) == r.At(t))
            && (p.life - dt < 0.0 ==> a.count == r.count - 1 && a.start == r.Slot(1))
            && (p.life - dt >= 0.0 ==> a.count == r.count && a.start == r.start)
  {
    var a := Moved(r, s, velX, velY, dt);
    forall t | 0 <= t < r.capacity && t != s
      ensures a.At(t) == r.At(t)
    {
      assert a.positions[2 * t] == r.positions[2 * t] && a.positions[2 * t + 1] == r.positions[2 * t + 1];
    }
    SlotBelowCapacity(r.start, r.capacity);
    SlotShift(r.start, 1, r.capacity);
  }

  /** One pass of the advection loop moves and ages the particle in slot s by the
      velocity sampled at its position, and no other; the counters change as in Moved. */
  lemma AdvectOneEffect(fu: Velocity, fv: Velocity, dt: real, r: Ring, s: nat)
    requires r.Valid() && s < r.capacity && r.count > 0
    ensures var a := AdvectOne(fu, fv, dt, r, s);
            var p := r.At(s);
            && a.Valid() && a.capacity == r.capacity
            && a.At(s) == Advected(fu, fv, dt, p)
            && (forall t :: 0 <= t < r.capacity && t != s ==> a.At(t) == r.At(t))
            && (p.life - dt < 0.0 ==> a.count == r.count - 1 && a.start == r.Slot(1))
            && (p.life - dt >= 0.0 ==> a.count == r.count && a.start == r.start)
  {
    var p := r.At(s);
    assert p.x == r.positions[2 * s] && p.y == r.positions[2 * s + 1];
    assert AdvectOne(fu, fv, dt, r, s) == Moved(r, s, fu(p.x, p.y), fv(p.x, p.y), dt);
    MovedEffect(r, s, fu(p.x, p.y), fv(p.x, p.y), dt);
  }

  /** The advection loop from pass i on: slot (si + i) % capacity is visited, and the
      bound is the count as it stands after the previous pass. */
  function AdvectLoop(fu: Velocity, fv: Velocity, dt: real, r: Ring, si: nat, i: nat): (a: Ring)
    requires r.Valid()
    ensures a.Valid() && a.capacity == r.capacity && a.count <= r.count
    decreases r.count - i
  {
    if i >= r.count then r
    else AdvectLoop(fu, fv, dt, AdvectOne(fu, fv, dt, r, (si + i) % r.capacity), si, i + 1)
  }

  /** One unfolding of the advection loop while its bound has not been reached. */
  lemma AdvectLoopStep(fu: Velocity, fv: Velocity, dt: real, r: Ring, si: nat, i: nat)
    requires r.Valid() && i < r.count
    ensures AdvectLoop(fu, fv, dt, r, si, i) == AdvectLoop(fu, fv, dt, AdvectOne(fu, fv, dt, r, (si + i) % r.capacity), si, i + 1)
  {
  }

  /** Every live particle would expire after aging by dt. */
  ghost predicate AllExpire(r: Ring, dt: real)
    requires r.Valid()
  {
    forall k :: 0 <= k < r.count ==> r.lifetimes[r.Slot(k)] - dt < 0.0
  }

  /** State of the loop after i passes in which every visited particle expired. */
  ghost predicate HalfWay(r0: Ring, r: Ring, i: nat)
    requires r0.Valid()
  {
    && r.Valid() && r.capacity == r0.capacity
    && i <= r0.count && r.count == r0.count - i
    && (r0.capacity > 0 ==> r.start == r0.Slot(i))
    && forall k :: i <= k < r0.count ==> r.At(r0.Slot(k)) == r0.At(r0.Slot(k))
  }

  lemma LiveFromHalfWay(r0: Ring, r: Ring, i: nat)
    requires r0.Valid() && HalfWay(r0, r, i)
    ensures r.Live() == r0.Live()[i..]
  {
    forall t | 0 <= t < r.count
      ensures r.Live()[t] == r0.Live()[i + t]
    {
      var c, a := r0.capacity, r0.start + i;
      SlotShift(a, t, c);
      assert r.start == a % c;
      assert r.Slot(t) == (a % c + t) % c;
      assert r0.Slot(i + t) == (a + t) % c;
      assert r.At(r0.Slot(i + t)) == r0.At(r0.Slot(i + t));
    }
    assert r.Live() == r0.Live()[i..];
  }

  /** When the loop stops after i passes that all expired, i is ceil(count/2). */
  lemma HalfDone(r0: Ring, r: Ring, i: nat)
    requires r0.Valid() && HalfWay(r0, r, i) && 2 * i <= r0.count + 1 && i >= r.count
    ensures i == (r0.count + 1) / 2 && r.count == r0.count / 2
    ensures r.Live() == r0.Live()[i..]
  {
    LiveFromHalfWay(r0, r, i);
  }

  /** A pass over the head slot of r whose particle expires drops that head. */
  lemma DropsHead(fu: Velocity, fv: Velocity, dt: real, r0: Ring, r: Ring, i: nat)
    requires r0.Valid() && r.Valid() && r.capacity == r0.capacity && i < r0.count
    requires r.count == r0.count - i && r.start == r0.Slot(i) && r.lifetimes[r0.Slot(i)] - dt < 0.0
    ensures var a := AdvectOne(fu, fv, dt, r, r0.Slot(i));
            a.Valid() && a.capacity == r0.capacity && a.count == r0.count - (i + 1) && a.start == r0.Slot(i + 1)
  {
    var s := r0.Slot(i);
    var p := r.At(s);
    assert p.life - dt < 0.0;
    assert AdvectOne(fu, fv, dt, r, s) == Moved(r, s, fu(p.x, p.y), fv(p.x, p.y), dt);
    HeadAdvances(r0, r, i);
  }

  /** When r's head is slot Slot(i) of r0, the slot after r's head is Slot(i + 1) of r0. */
  lemma HeadAdvances(r0: Ring, r: Ring, i: nat)
    requires r0.Valid() && r.Valid() && r.capacity == r0.capacity > 0 && r.start == r0.Slot(i)
    ensures r.Slot(1) == r0.Slot(i + 1)
  {
    SlotShift(r0.start + i, 1, r0.capacity);
  }

  /** A pass over slot Slot(i) leaves the particles in the later slots of r0 alone. */
  lemma KeepsLater(fu: Velocity, fv: Velocity, dt: real, r0: Ring, r: Ring, i: nat)
    requires r0.Valid() && r.Valid() && r.capacity == r0.capacity && i < r0.count && r.count > 0
    requires forall k :: i <= k < r0.count ==> r.At(r0.Slot(k)) == r0.At(r0.Slot(k))
    ensures var a := AdvectOne(fu, fv, dt, r, r0.Slot(i));
            forall k :: i + 1 <= k < r0.count ==> a.At(r0.Slot(k)) == r0.At(r0.Slot(k))
  {
    var a := AdvectOne(fu, fv, dt, r, r0.Slot(i));
    forall k | i + 1 <= k < r0.count
      ensures a.At(r0.Slot(k)) == r0.At(r0.Slot(k))
    {
      AdvectOneEffect(fu, fv, dt, r, r0.Slot(i));
      SlotsDistinct(r0.start, i, k, r0.capacity);
    }
  }

  /** A pass over the head of a ring whose particles all expire drops that head. */
  lemma HalfStep(fu: Velocity, fv: Velocity, dt: real, r0: Ring, r: Ring, i: nat)
    requires r0.Valid() && AllExpire(r0, dt) && HalfWay(r0, r, i) && i < r.count
    ensures r0.capacity > 0 && (r0.start + i) % r0.capacity < r.capacity
    ensures HalfWay(r0, AdvectOne(fu, fv, dt, r, (r0.start + i) % r0.capacity), i + 1)
  {
    assert r0.lifetimes[r0.Slot(i)] - dt < 0.0;
    assert r.lifetimes[r0.Slot(i)] == r.At(r0.Slot(i)).life == r0.At(r0.Slot(i)).life;
    DropsHead(fu, fv, dt, r0, r, i);
    KeepsLater(fu, fv, dt, r0, r, i);
  }

  lemma {:induction false} ExpiresHalfFrom(fu: Velocity, fv: Velocity, dt: real, r0: Ring, r: Ring, i: nat)
    requires r0.Valid() && AllExpire(r0, dt) && HalfWay(r0, r, i) && 2 * i <= r0.count + 1
    ensures var a := AdvectLoop(fu, fv, dt, r, r0.start, i);
            var h := (r0.count + 1) / 2;
            && a.count == r0.count / 2
            && (r0.capacity > 0 ==> a.start == r0.Slot(h))
            && a.Live() == r0.Live()[h..]
    decreases r0.count - i
  {
    if i >= r.count {
      HalfDone(r0, r, i);
    } else {
      HalfStep(fu, fv, dt, r0, r, i);
      var next := AdvectOne(fu, fv, dt, r, (r0.start + i) % r0.capacity);
      assert AdvectLoop(fu, fv, dt, r, r0.start, i) == AdvectLoop(fu, fv, dt, next, r0.start, i + 1);
      ExpiresHalfFrom(fu, fv, dt, r0, next, i + 1);
    }
  }

  /** Because the loop bound re-reads the shrinking count, a call in which every
      visited particle expires visits only the first ceil(count/2) particles: those
      are removed from the head and the rest stay live, unmoved and un-aged. */
  lemma AdvectExpiresHalf(fu: Velocity, fv: Velocity, dt: real, r: Ring)
    requires r.Valid() && AllExpire(r, dt)
    ensures var a := AdvectLoop(fu, fv, dt, r, r.start, 0);
            && a.count == r.count / 2
            && (r.capacity > 0 ==> a.start == r.Slot((r.count + 1) / 2))
            && a.Live() == r.Live()[(r.count + 1) / 2..]
  {
    if r.capacity > 0 {
      SlotBelowCapacity(r.start, r.capacity);
    }
    assert HalfWay(r, r, 0);
    ExpiresHalfFrom(fu, fv, dt, r, r, 0);
  }

  /** Every live particle survives aging by dt. */
  ghost predicate AllSurvive(r: Ring, dt: real)
    requires r.Valid()
  {
    forall k :: 0 <= k < r.count ==> r.lifetimes[r.Slot(k)] - dt >= 0.0
  }

  /** State of the loop after i passes in which no particle expired. */
  ghost predicate Surviving(fu: Velocity, fv: Velocity, dt: real, r0: Ring, r: Ring, i: nat)
    requires r0.Valid()
  {
    && r.Valid() && r.capacity == r0.capacity && r.count == r0.count && r.start == r0.start
    && i <= r0.count
    && (forall k :: 0 <= k < i ==> r.At(r0.Slot(k)) == Advected(fu, fv, dt, r0.At(r0.Slot(k))))
    && (forall k :: i <= k < r0.count ==> r.At(r0.Slot(k)) == r0.At(r0.Slot(k)))
  }

  /** A pass over a surviving particle advects it and touches nothing else. */
  lemma SurvivingStep(fu: Velocity, fv: Velocity, dt: real, r0: Ring, r: Ring, i: nat)
    requires r0.Valid() && AllSurvive(r0, dt) && Surviving(fu, fv, dt, r0, r, i) && i < r.count
    ensures r0.capacity > 0 && (r0.start + i) % r0.capacity < r.capacity
    ensures Surviving(fu, fv, dt, r0, AdvectOne(fu, fv, dt, r, (r0.start + i) % r0.capacity), i + 1)
  {
    var s := (r0.start + i) % r0.capacity;
    assert s == r0.Slot(i);
    var a := AdvectOne(fu, fv, dt, r, s);
    AdvectOneEffect(fu, fv, dt, r, s);
    assert r.At(s) == r0.At(s);
    forall k | 0 <= k < r0.count && k != i
      ensures a.At(r0.Slot(k)) == r.At(r0.Slot(k))
    {
      if k < i {
        SlotsDistinct(r0.start, k, i, r0.capacity);
      } else {
        SlotsDistinct(r0.start, i, k, r0.capacity);
      }
    }
  }

  lemma {:induction false} SurvivingFrom(fu: Velocity, fv: Velocity, dt: real, r0: Ring, r: Ring, i: nat)
    requires r0.Valid() && AllSurvive(r0, dt) && Surviving(fu, fv, dt, r0, r, i)
    ensures Surviving(fu, fv, dt, r0, AdvectLoop(fu, fv, dt, r, r0.start, i), r0.count)
    decreases r0.count - i
  {
    if i < r.count {
      SurvivingStep(fu, fv, dt, r0, r, i);
      var next := AdvectOne(fu, fv, dt, r, (r0.start + i) % r0.capacity);
      assert AdvectLoop(fu, fv, dt, r, r0.start, i) == AdvectLoop(fu, fv, dt, next, r0.start, i + 1);
      SurvivingFrom(fu, fv, dt, r0, next, i + 1);
    } else {
      assert i == r0.count;
      assert AdvectLoop(fu, fv, dt, r, r0.start, i) == r;
    }
  }

  /** When no particle expires, one call advects every live particle exactly once and
      keeps the ring's head, count and order. */
  lemma AdvectWithoutExpiry(fu: Velocity, fv: Velocity, dt: real, r: Ring)
    requires r.Valid() && AllSurvive(r, dt)
    ensures var a := AdvectLoop(fu, fv, dt, r, r.start, 0);
            && a.count == r.count && a.start == r.start
            && |a.Live()| == |r.Live()|
            && forall k :: 0 <= k < r.count ==> a.Live()[k] == Advected(fu, fv, dt, r.Live()[k])
  {
    assert Surviving(fu, fv, dt, r, r, 0);
    SurvivingFrom(fu, fv, dt, r, r, 0);
    var a := AdvectLoop(fu, fv, dt, r, r.start, 0);
    forall k | 0 <= k < r.count
      ensures a.Live()[k] == Advected(fu, fv, dt, r.Live()[k])
    {
      assert a.Live()[k] == a.At(a.Slot(k)) && r.Live()[k] == r.At(r.Slot(k));
    }
  }

  // ---------------------------------------------------------------------------
  // The module state

  /** The particle module's state: the two buffers, the ring counters, the lifetime
      given to new particles and the emitter disc. The buffers are absent until the
      first emission allocates them. */
  class ParticleSystem {
    var positions: array<real>
    var lifetimes: array<real>
    var hasBuffers: bool
    var particleLifetime: real
    var count: nat
    var capacity: nat
    var start: nat
    var emitterX: real
    var emitterY: real
    var emitterR: real

    /** The ring the buffers and counters form. */
    function State(): Ring
      reads this, positions, lifetimes
    {
      Ring(positions[..], lifetimes[..], count, capacity, start)
    }

    /** The emitter disc and the lifetime of new particles. */
    function Settings(): (real, real, real, real)
      reads this
    {
      (emitterX, emitterY, emitterR, particleLifetime)
    }

    ghost predicate Valid()
      reads this, positions, lifetimes
    {
      && positions != lifetimes
      && State().Valid()
      && (!hasBuffers ==> capacity == 0 && count == 0 && start == 0)
    }

    /** The initial state: no buffers, no particles, lifetime 1 and the unit disc at the origin. */
    constructor ()
      ensures Valid() && !hasBuffers && count == 0 && capacity == 0 && start == 0
      ensures Settings() == (0.0, 0.0, 1.0, 1.0)
    {
      positions := new real[0];
      lifetimes := new real[0];
      hasBuffers := false;
      particleLifetime := 1.0;
      count := 0;
      capacity := 0;
      start := 0;
      emitterX := 0.0;
      emitterY := 0.0;
      emitterR := 1.0;
    }

    /** Makes room for n more particles: a first call allocates n zeroed slots, then
        the capacity doubles until count + n fit. */
    method Realloc(n: nat)
      requires Valid() && GrowthTerminates(hasBuffers, capacity, count, n)
      modifies this
      ensures Valid() && hasBuffers
      ensures State() == Grown(old(State()), ReallocCapacity(old(hasBuffers), old(capacity), old(count), n))
      ensures count + n <= capacity
      ensures (positions == old(positions) && lifetimes == old(lifetimes)) || (fresh(positions) && fresh(lifetimes))
      ensures Settings() == old(Settings())
    {
      ghost var r0 := State();
      if !hasBuffers {
        Allocate(n);
      }
      while count + n > capacity
        invariant Valid() && hasBuffers
        invariant capacity > 0 || count + n <= capacity
        invariant r0.capacity <= capacity
        invariant State() == Grown(r0, capacity)
        invariant GrownCapacity(capacity, count + n) == ReallocCapacity(old(hasBuffers), old(capacity), old(count), n)
        invariant (positions == old(positions) && lifetimes == old(lifetimes)) || (fresh(positions) && fresh(lifetimes))
        invariant Settings() == old(Settings())
        decreases count + n - capacity
      {
        ghost var c := capacity;
        Double();
        GrownTwice(r0, c, capacity);
      }
    }

    /** The first allocation: n zeroed slots in two fresh buffers. */
    method Allocate(n: nat)
      requires Valid() && !hasBuffers
      modifies this
      ensures Valid() && hasBuffers && fresh(positions) && fresh(lifetimes)
      ensures State() == Grown(old(State()), n)
      ensures Settings() == old(Settings())
    {
      positions := new real[2 * n](_ => 0.0);
      lifetimes := new real[n](_ => 0.0);
      capacity := n;
      hasBuffers := true;
      assert positions[..] == Zeros(2 * n);
      assert lifetimes[..] == Zeros(n);
    }

    /** One pass of the doubling loop: twice the slots, the old contents kept in place. */
    method Double()
      requires Valid() && hasBuffers
      modifies this
      ensures Valid() && hasBuffers && fresh(positions) && fresh(lifetimes)
      ensures State() == Grown(old(State()), 2 * old(capacity))
      ensures Settings() == old(Settings())
    {
      capacity := capacity * 2;
      positions := Extend(positions, 2 * capacity);
      lifetimes := Extend(lifetimes, capacity);
    }

    /** Emits the raster points of step dx that fall in the emitter disc, column by
        column, each into the slot after the last live particle. */
    method Emit(dx: real, max: nat)
      requires Valid() && GrowthTerminates(hasBuffers, capacity, count, max * max)
      modifies this, positions, lifetimes
      ensures Valid() && hasBuffers
      ensures capacity == ReallocCapacity(old(hasBuffers), old(capacity), old(count), max * max)
      ensures count == old(count) + |Raster(dx, emitterR, max, max)| <= capacity
      ensures State() == AppendedAll(Grown(old(State()), ReallocCapacity(old(hasBuffers), old(capacity), old(count), max * max)),
                                     EmittedAll(Raster(dx, emitterR, max, max), emitterX, emitterY, particleLifetime))
      ensures Settings() == old(Settings())
    {
      Realloc(max * max);
      ghost var r0 := State();
      var i := 0;
      while i < max
        invariant 0 <= i <= max
        invariant Valid() && hasBuffers && Settings() == old(Settings())
        invariant r0.Valid() && r0.capacity == capacity && r0.count + max * max <= capacity
        invariant (positions == old(positions) && lifetimes == old(lifetimes)) || (fresh(positions) && fresh(lifetimes))
        invariant r0.count + |Raster(dx, emitterR, max, i)| <= capacity
        invariant State() == AppendedAll(r0, EmittedAll(Raster(dx, emitterR, max, i), emitterX, emitterY, particleLifetime))
      {
        EmitColumn(dx, max, i, r0);
        i := i + 1;
      }
    }

    /** One pass of the outer raster loop: the points of column i, in row order. */
    method EmitColumn(dx: real, max: nat, i: nat, ghost r0: Ring)
      requires Valid() && r0.Valid() && i < max
      requires r0.capacity == capacity && r0.count + max * max <= capacity
      requires r0.count + |Raster(dx, emitterR, max, i)| <= capacity
      requires State() == AppendedAll(r0, EmittedAll(Raster(dx, emitterR, max, i), emitterX, emitterY, particleLifetime))
      modifies this, positions, lifetimes
      ensures Valid() && Settings() == old(Settings()) && hasBuffers == old(hasBuffers)
      ensures positions == old(positions) && lifetimes == old(lifetimes) && capacity == old(capacity)
      ensures r0.count + |Raster(dx, emitterR, max, i + 1)| <= capacity
      ensures State() == AppendedAll(r0, EmittedAll(Raster(dx, emitterR, max, i + 1), emitterX, emitterY, particleLifetime))
    {
      ghost var pre := Raster(dx, emitterR, max, i);
      assert pre + RasterColumn(dx, emitterR, i, 0) == pre;
      var j := 0;
      while j < max
        invariant 0 <= j <= max
        invariant Valid() && Settings() == old(Settings()) && hasBuffers == old(hasBuffers)
        invariant positions == old(positions) && lifetimes == old(lifetimes) && capacity == old(capacity)
        invariant r0.count + |pre + RasterColumn(dx, emitterR, i, j)| <= capacity
        invariant State() == AppendedAll(r0, EmittedAll(pre + RasterColumn(dx, emitterR, i, j),
                                                        emitterX, emitterY, particleLifetime))
      {
        EmitPoint(dx, max, i, j, r0);
        j := j + 1;
      }
      assert pre + RasterColumn(dx, emitterR, i, max) == Raster(dx, emitterR, max, i + 1);
    }

    /** One pass of the inner raster loop: raster point (i, j) becomes a particle in the
        slot after the last live one when it lies in the disc. */
    method EmitPoint(dx: real, max: nat, i: nat, j: nat, ghost r0: Ring)
      requires Valid() && r0.Valid() && i < max && j < max
      requires r0.capacity == capacity && r0.count + max * max <= capacity
      requires r0.count + |Raster(dx, emitterR, max, i) + RasterColumn(dx, emitterR, i, j)| <= capacity
      requires State() == AppendedAll(r0, EmittedAll(Raster(dx, emitterR, max, i) + RasterColumn(dx, emitterR, i, j),
                                                     emitterX, emitterY, particleLifetime))
      modifies this, positions, lifetimes
      ensures Valid() && Settings() == old(Settings()) && hasBuffers == old(hasBuffers)
      ensures positions == old(positions) && lifetimes == old(lifetimes) && capacity == old(capacity)
      ensures r0.count + |Raster(dx, emitterR, max, i) + RasterColumn(dx, emitterR, i, j + 1)| <= capacity
      ensures State() == AppendedAll(r0, EmittedAll(Raster(dx, emitterR, max, i) + RasterColumn(dx, emitterR, i, j + 1),
                                                    emitterX, emitterY, particleLifetime))
    {
      ghost var os := Raster(dx, emitterR, max, i) + RasterColumn(dx, emitterR, i, j);
      RasterPrefixFits(dx, emitterR, max, i, j + 1);
      RasterPrefixStep(dx, emitterR, max, i, j);
      var x := i as real * dx - emitterR;
      var y := j as real * dx - emitterR;
      assert Offset(x, y) == RasterPoint(dx, emitterR, i, j);
      if Inside(Offset(x, y), emitterR) {
        AppendedAllStep(r0, os, Offset(x, y), emitterX, emitterY, particleLifetime);
        Append(x, y);
      } else {
        assert os + [] == os;
      }
    }

    /** Writes the particle at offset (x, y) from the emitter centre, with the current
        lifetime, into the slot after the last live particle. */
    method Append(x: real, y: real)
      requires Valid() && count < capacity
      modifies this, positions, lifetimes
      ensures Valid() && Settings() == old(Settings()) && hasBuffers == old(hasBuffers)
      ensures positions == old(positions) && lifetimes == old(lifetimes)
      ensures State() == Appended(old(State()), Emitted(Offset(x, y), emitterX, emitterY, particleLifetime))
    {
      ghost var r := State();
      var idx := (start + count) % capacity;
      positions[2 * idx] := emitterX + x;
      positions[2 * idx + 1] := emitterY + y;
      lifetimes[idx] := particleLifetime;
      count := count + 1;
      assert positions[..] == r.positions[2 * idx := emitterX + x][2 * idx + 1 := emitterY + y];
      assert lifetimes[..] == r.lifetimes[idx := particleLifetime];
    }

    /** Moves every live particle by dt times the fluid velocity (u, v) sampled at its
        position and ages it by dt, visiting slots from the head as it was on entry;
        the loop bound is re-read after every expiry. */
    method Advect(g: Grid, u: seq<real>, v: seq<real>, dt: real)
      requires Valid() && g.Valid() && |u| == g.Size() && |v| == g.Size()
      modifies this, positions, lifetimes
      ensures Valid() && hasBuffers == old(hasBuffers) && Settings() == old(Settings())
      ensures positions == old(positions) && lifetimes == old(lifetimes)
      ensures State() == AdvectLoop(Sampler(g, u), Sampler(g, v), dt, old(State()), old(start), 0)
    {
      ghost var fu, fv, r0 := Sampler(g, u), Sampler(g, v), State();
      var si := start;
      var i := 0;
      while i < count
        invariant Valid() && hasBuffers == old(hasBuffers) && Settings() == old(Settings())
        invariant positions == old(positions) && lifetimes == old(lifetimes)
        invariant AdvectLoop(fu, fv, dt, State(), si, i) == AdvectLoop(fu, fv, dt, r0, si, 0)
        decreases count - i
      {
        var idx := (si + i) % capacity;
        ghost var before := State();
        AdvectParticle(g, u, v, dt, idx);
        AdvectLoopStep(fu, fv, dt, before, si, i);
        i := i + 1;
      }
    }

    /** One pass of the advection loop, on slot idx. */
    method AdvectParticle(g: Grid, u: seq<real>, v: seq<real>, dt: real, idx: nat)
      requires Valid() && g.Valid() && |u| == g.Size() && |v| == g.Size()
      requires idx < capacity && count > 0
      modifies this, positions, lifetimes
      ensures Valid() && hasBuffers == old(hasBuffers) && Settings() == old(Settings())
      ensures positions == old(positions) && lifetimes == old(lifetimes)
      ensures State() == AdvectOne(Sampler(g, u), Sampler(g, v), dt, old(State()), idx)
      ensures count <= old(count)
    {
      ghost var r := State();
      var velX := Sample(g, u, positions[2 * idx], positions[2 * idx + 1]);
      var velY := Sample(g, v, positions[2 * idx], positions[2 * idx + 1]);
      MoveParticle(idx, velX, velY, dt);
    }

    /** The update of one pass of the advection loop: the particle in slot idx moves
        with the sampled velocity (velX, velY) and ages by dt; an expiry drops the head. */
    method MoveParticle(idx: nat, velX: real, velY: real, dt: real)
      requires Valid() && idx < capacity && count > 0
      modifies this, positions, lifetimes
      ensures Valid() && hasBuffers == old(hasBuffers) && Settings() == old(Settings())
      ensures positions == old(positions) && lifetimes == old(lifetimes)
      ensures State() == Moved(old(State()), idx, velX, velY, dt)
      ensures count <= old(count)
    {
      ghost var r := State();
      positions[2 * idx] := positions[2 * idx] + velX * dt;
      positions[2 * idx + 1] := positions[2 * idx + 1] + velY * dt;
      lifetimes[idx] := lifetimes[idx] - dt;
      ghost var ps := r.positions[2 * idx := r.positions[2 * idx] + velX * dt][2 * idx + 1 := r.positions[2 * idx + 1] + velY * dt];
      ghost var ls := r.lifetimes[idx := r.lifetimes[idx] - dt];
      assert positions[..] == ps;
      assert lifetimes[..] == ls;
      if lifetimes[idx] < 0.0 {
        start := (start + 1) % capacity;
        count := count - 1;
        assert Moved(r, idx, velX, velY, dt) == Ring(ps, ls, r.count - 1, r.capacity, (r.start + 1) % r.capacity);
      } else {
        assert Moved(r, idx, velX, velY, dt) == Ring(ps, ls, r.count, r.capacity, r.start);
      }
    }

    /** The count the module reports: the capacity of the buffers, which bounds the
        number of live particles from above but is not that number. */
    function GetCount(): (n: nat)
      reads this, positions, lifetimes
      requires Valid()
      ensures n >= count
    {
      capacity
    }

    /** Moves the emitter disc; nothing else changes. */
    method SetEmitter(x: real, y: real, r: real)
      modifies this
      ensures Settings() == (x, y, r, old(particleLifetime))
      ensures State() == old(State()) && hasBuffers == old(hasBuffers)
      ensures positions == old(positions) && lifetimes == old(lifetimes)
    {
      emitterX := x;
      emitterY := y;
      emitterR := r;
    }

    /** Sets the lifetime of particles emitted from now on; nothing else changes. */
    method SetLifetime(lifetime: real)
      modifies this
      ensures Settings() == (old(emitterX), old(emitterY), old(emitterR), lifetime)
      ensures State() == old(State()) && hasBuffers == old(hasBuffers)
      ensures positions == old(positions) && lifetimes == old(lifetimes)
    {
      particleLifetime := lifetime;
    }
  }

  /** A fresh buffer of n slots holding a's contents followed by zeros. */
  method Extend(a: array<real>, n: nat) returns (b: array<real>)
    requires a.Length <= n
    ensures fresh(b) && b[..] == a[..] + Zeros(n - a.Length)
  {
    var kept := a[..];
    b := new real[n]((k: nat) => if k < |kept| then kept[k] else 0.0);
    assert b[..] == kept + Zeros(n - |kept|);
  }
}
