# fluids: a verified model of the grid solver and the particle ring

This project models the two computational files of `fluids`, a small C library for
2-D stable-fluids smoke simulation:

- `src/fluids.c` covers the uniform grid, whose node `(i, j)` lies at `origin + (i*dx, j*dx)`, and the bilinear sampler. It also
  covers the five boundary policies, the source terms, semi-Lagrangian advection and
  diffusion by Jacobi-style sweeps. The rest of the file is the pressure projection, vorticity
  confinement and the divergence diagnostic.
- `src/particles.c` is the particle system. Its particles live in a ring buffer that
  grows by doubling. Particles are emitted on a raster inside a disc, advected through
  the fluid's velocity field and expire at the head of the ring.

The Dafny modules follow that split:

| module | file | models |
|---|---|---|
| `FluidGrid` | `grid.dfy` | the grid (`Grid`), `IDX`/`CLAMP`, truncation toward zero, `fluids_sample` |
| `Boundary` | `boundary.dfy` | the five boundary handlers as one `Policy` datatype and the field they produce |
| `Stencils` | `stencils.dfy` | every per-cell formula of `fluids.c` and the whole-field functions the loops compute |
| `Fluids` | `fluids.dfy` | class `Solver`: the grid globals and every `fluids_*` entry point as a method over `array<real>` fields |
| `Particles` | `particles.dfy` | the ring (`Ring`), growth, emission, advection and expiry; class `ParticleSystem` holds the module's globals |

Each stateful method is proved against a specification function of its inputs. For
example, `Solver.Advect` leaves `q[..] == WithBoundary(g, p, AdvectedField(g, old(q[..]), prev[..], u[..], v[..], dt))`.
The lemmas next to those functions state what the code promises: boundary
idempotence, the range of a sample, a divergence-free field passing through
projection unchanged, and the ring's live contents after emission and advection.

Where the code and its header comments disagree, the model follows the code:

- `fluids.h:57-64` documents `q += (q - target) * s`. `fluids.c:287` computes
  `q += (target - q) * s`. `Stencils.HeaderFormulaMovesAway` shows that the documented
  formula moves away from the target.
- `fluids.h:125` calls the diagnostic an "average". `fluids.c:458-478` returns the
  maximum of the divergence over the interior, or 0.
- `particles.h:30` says `particles_get_count` returns the number of particles.
  `particles.c:101` returns the capacity.
- `fluids_diffuse` reads its neighbours from `prev`, not from the field being relaxed
  (`fluids.c:330-332`). So every sweep is a Jacobi-style pass that computes the same thing, and the
  iteration count has no effect (`Stencils.DiffusionIterationCountIrrelevant`).
- `particles_advect` re-reads the shrinking `g_particle_count` as its loop bound. It
  indexes from the unchanged start snapshot `si`. So when every particle expires, one
  call removes only the first half, rounded up (`Particles.AdvectExpiresHalf`).
- Growing a wrapped ring keeps each slot's contents. Live particles that had wrapped
  past the end are therefore read from the new zeroed slots
  (`Particles.GrowthReordersWrapped`, `Particles.GrowthReordersExample`).

## Model

| member | source | states |
|---|---|---|
| `FluidGrid.Grid.Idx` | src/fluids.c:19-20 | the row-major index of an in-grid cell lies in `[0, ni*nj)`, and `Col`/`Row` recover `i` and `j` from it |
| `FluidGrid.IdxOfCell` | src/fluids.c:19-20 | every field index is the index of exactly the cell `(Col(k), Row(k))` in the grid |
| `FluidGrid.CellOfIndex` | src/fluids.c:19-20 | dividing an index by `ni` gives an in-grid row and column that rebuild the index |
| `FluidGrid.FieldsEqualByCells` | src/fluids.c:19-20 | two fields that agree on every `(i, j)` cell are equal, so `IDX` covers the whole array |
| `FluidGrid.Trunc` | src/fluids.c:185-186 | the float-to-int conversion truncates toward zero: the result is within 1 of `x` on the side of 0 |
| `FluidGrid.Clamp` | src/fluids.c:21-24 | the clamped index lies in `[0, n)`; it is unchanged inside, 0 below and `n-1` above |
| `FluidGrid.AxisCellAt` | src/fluids.c:185-195 | the sampled cell and its neighbour lie in the grid, and the neighbour is the next cell, or the same last cell when clamped |
| `FluidGrid.FootprintAt` | src/fluids.c:184-195 | the four sampler cells lie in the grid on both axes |
| `FluidGrid.SampleIndices` | src/fluids.c:198-201 | the four indices read by the sampler are in `[0, ni*nj)` |
| `FluidGrid.SampleAtNode` | src/fluids.c:175-206 | sampling exactly at grid node `(X(i), Y(j))`, the corner from which the sampler measures its offset, returns that cell's value |
| `FluidGrid.SampleWithinRange` | src/fluids.c:175-206 | at or beyond the origin the sample is a convex blend: it stays within any bounds of the field |
| `FluidGrid.SampleExtrapolatesBelowOrigin` | src/fluids.c:185-192 | half a cell below the origin, truncation toward zero keeps cell 0 with weight -0.5: the sample is `1.5*q(0,j) - 0.5*q(1,j)` |
| `FluidGrid.SampleClampsBeyondLastColumn` | src/fluids.c:187-195 | at or beyond the last column the sample equals that column's value |
| `FluidGrid.LerpBetween` | src/fluids.c:203-205 | a blend with weight in `[0, 1]` lies between its two ends |
| `Boundary.WithBoundary` | src/fluids.c:28-150 | the bounded field has the input's length; the interior is kept, edges follow the policy and corners average their two edge neighbours |
| `Boundary.CornersCompleteBoundary` | src/fluids.c:28-51 | once the edges are written, writing the four corners from the written edges produces exactly the bounded field |
| `Boundary.BoundaryKeepsInterior` | src/fluids.c:28-150 | no boundary handler changes an interior cell |
| `Boundary.BoundaryIdempotent` | src/fluids.c:28-150 | applying the same boundary handler twice is the same as applying it once |
| `Boundary.NNCopiesInward` | src/fluids.c:32-41 | the nearest-neighbour handler copies each edge cell from its inward neighbour |
| `Boundary.NNOfConstant` | src/fluids.c:28-51 | the nearest-neighbour handler turns a field that is constant on the interior into a constant field |
| `Boundary.NoStickZeroesNormalWalls` | src/fluids.c:53-125 | no-stick (`fluids.c:53-75` for `u`, `fluids.c:102-125` for `v`) zeroes the velocity component normal to a wall and copies the inward value on both of the other walls |
| `Boundary.ReflectUMirrorsSides` | src/fluids.c:77-100 | reflecting `u` stores the negated inward value on the left and right walls and copies the inward value on the top and bottom walls |
| `Boundary.ReflectVMirrorsCaps` | src/fluids.c:127-150 | reflecting `v` stores the negated inward value on the top and bottom walls and copies the inward value on the left and right walls |
| `Boundary.ReflectUSigns` | src/fluids.c:86-90 | as a consequence, an all-positive interior `u` gives negative side walls and positive top and bottom walls |
| `Stencils.ClampValue` | src/fluids.c:258-259 | the result is at least `lo`, and at most `hi` when `lo <= hi`; a value inside is unchanged; it is always one of `x`, `lo`, `hi` |
| `Stencils.ClampedSource` | src/fluids.c:247-262 | the added source is capped at `qMax` first and raised to `qMin` last, so `qMin` wins when the bounds cross |
| `Stencils.TowardTarget` | src/fluids.c:278-290 | `s = 0` keeps `q`, `s = 1` reaches the target, `s` in `[0, 1]` stays between `q` and the target |
| `Stencils.TowardTargetFacts` | src/fluids.c:287 | the distance to the target shrinks by the factor `1 - s` |
| `Stencils.HeaderFormulaMovesAway` | src/fluids.h:57-64 | the header's formula with `s = 1` doubles the distance to the target, unlike the code |
| `Stencils.BuoyancyRate` | src/fluids.c:404-405 | for non-negative `alpha` and `beta`, the rate is zero with no smoke at ambient temperature, non-negative with smoke below ambient temperature and non-positive with no smoke above it |
| `Stencils.AdvectStillFieldCopies` | src/fluids.c:292-311 | with zero velocity the interior of the advected field is `prev` |
| `Stencils.AdvectWithinRange` | src/fluids.c:301-308 | when every departure point is at or beyond the origin, advection creates no new extremes |
| `Stencils.DiffusionSweepIdempotent` | src/fluids.c:322-335 | a second Jacobi-style sweep over the same `prev` changes nothing |
| `Stencils.DiffusionIterationCountIrrelevant` | src/fluids.c:322-335 | any positive iteration count gives the result of one sweep |
| `Stencils.DiffusionWithoutRateCopies` | src/fluids.c:318-332 | with zero diffusion rate the interior becomes `prev` |
| `Stencils.PressureStaysZero` | src/fluids.c:361-373 | relaxing a zero pressure against a zero divergence keeps it zero for any iteration count |
| `Stencils.GradientOfZeroPressure` | src/fluids.c:376-383 | subtracting the gradient of a zero pressure leaves both velocity components unchanged |
| `Stencils.ProjectionOfDivergenceFree` | src/fluids.c:340-387 | projecting a divergence-free velocity leaves a zero divergence field and zero pressure, and leaves `u` and `v` unchanged |
| `Stencils.UniformVelocityIsDivergenceFree` | src/fluids.c:346-355 | a uniform velocity has zero divergence at every interior cell |
| `Stencils.DivergenceScales` | src/fluids.c:348-352 | the projection's divergence is `-dx^2` times the diagnostic's central divergence of `fluids.c:467-471` |
| `Stencils.ScanMaxIsMax` | src/fluids.c:462-477 | the scan returns a value `>= 0` that is at least every interior value and is 0 or one of them |
| `Stencils.Abs` | src/fluids.c:416-417 | the absolute value is non-negative and equals `x` or `-x` |
| `Stencils.NormalizedGradientBounded` | src/fluids.c:431-441 | when the norm bounds both components, every normalised gradient component lies in `[-1, 1]` |
| `Stencils.ConfinementWithoutVorticity` | src/fluids.c:444-455 | when the curl is zero on the interior, confinement leaves the velocity unchanged |
| `Stencils.UniformVelocityHasNoCurl` | src/fluids.c:420-426 | a uniform velocity has zero curl at every interior cell |
| `Fluids.Solver.constructor` | src/fluids.c:13-17 | the solver starts on the default grid: origin (0, 0), spacing 0.01, 100 by 100 cells |
| `Fluids.Solver.SetGrid` | src/fluids.c:165-173 | the current grid becomes exactly the given origin, spacing and cell counts |
| `Fluids.Solver.SetBoundary` | src/fluids.c:28-150 | the field becomes the bounded field of its old contents under the chosen policy |
| `Fluids.Solver.Malloc` | src/fluids.c:209-220 | returns a fresh field of `ni*nj` cells, each equal to `c` |
| `Fluids.Solver.Set` | src/fluids.c:222-230 | every cell becomes `c` |
| `Fluids.Solver.SetWithFunction` | src/fluids.c:232-245 | cell `(i, j)` becomes `fn` at grid node `(X(i), Y(j))` |
| `Fluids.Solver.AddSource` | src/fluids.c:264-276 | every cell becomes `q + alpha * source` |
| `Fluids.Solver.AddSourceClamped` | src/fluids.c:247-262 | every cell becomes the clamped sum `ClampedSource` |
| `Fluids.Solver.AddSourceWithTarget` | src/fluids.c:278-290 | every cell moves toward the target by its source weight (`TowardTarget`) |
| `Fluids.Solver.AddBuoyancy` | src/fluids.c:389-408 | every cell of `v` decreases by `dt` times the buoyancy rate of its smoke and temperature |
| `Fluids.Solver.Advect` | src/fluids.c:292-311 | `q` becomes the bounded semi-Lagrangian field: each interior cell samples `prev` at its departure point |
| `Fluids.Solver.Diffuse` | src/fluids.c:313-338 | `q` becomes the bounded result of `iterationCount` Jacobi-style sweeps over `prev` |
| `Fluids.Solver.Project` | src/fluids.c:340-387 | `div` is the bounded divergence and `p` the relaxed pressure from a zero interior; `u` and `v` lose their pressure gradients under their own policies |
| `Fluids.Solver.AddVorticityConfinement` | src/fluids.c:410-456 | `w` is the curl and `nx`/`ny` the normalised curl gradients; `u` gains and `v` loses the confinement force |
| `Fluids.Solver.GetMaxDivergence` | src/fluids.c:458-478 | `div` holds the central divergence; the result is the largest interior divergence, or 0 when none is positive |
| `Particles.Ring.Slot` | src/particles.c:74-75 | the slot of the k-th live particle, also used at `particles.c:112`, lies below the capacity |
| `Particles.Ring.Live` | src/particles.c:8-19 | the live sequence has one particle per counted slot |
| `Particles.SlotsDistinct` | src/particles.c:112 | distinct live positions below the capacity occupy distinct slots |
| `Particles.Grown` | src/particles.c:22-41 | growth keeps count and start, reaches the new capacity and stays a valid ring |
| `Particles.GrownTwice` | src/particles.c:30-36 | growing twice equals growing once to the final capacity |
| `Particles.GrowthKeepsOldSlots` | src/particles.c:32-35 | growth keeps the contents of every old slot |
| `Particles.GrownCapacity` | src/particles.c:30-36 | the doubled capacity covers the demand and is never below the old capacity |
| `Particles.ReallocCapacity` | src/particles.c:22-41 | after reallocation the capacity fits `count + n`, and a present buffer never shrinks |
| `Particles.GrownCapacityDoubles` | src/particles.c:30-31 | the new capacity is the old one times a power of two |
| `Particles.GrownCapacityTight` | src/particles.c:30-31 | the new capacity is unchanged or below twice the demand |
| `Particles.GrowthTerminatesExactly` | src/particles.c:24-36 | the precondition of reallocation holds exactly when some number of passes of the doubling loop, from its starting capacity, fits `count + n` |
| `Particles.DoublingFromZeroStaysZero` | src/particles.c:24-31 | doubling a zero capacity never reaches a positive demand |
| `Particles.GrowthPreservesUnwrapped` | src/particles.c:22-41 | growing a ring whose live run has not wrapped keeps its live particles |
| `Particles.GrowthReordersWrapped` | src/particles.c:30-36 | growing a wrapped ring replaces the first wrapped live particle with a new zeroed slot |
| `Particles.GrowthReordersExample` | src/particles.c:30-36 | a concrete two-slot wrapped ring whose live particles change when grown to four slots |
| `Particles.RasterSize` | src/particles.c:72-86 | the raster has at most `max * max` points, so `particles_realloc(max * max)` always makes room |
| `Particles.RasterInside` | src/particles.c:79 | every raster point lies in the closed disc of radius `r` |
| `Particles.RasterMembers` | src/particles.c:72-86 | a point is in the raster exactly when some `(i, j)` below `max` lands on it inside the disc |
| `Particles.EmittedWithinDisc` | src/particles.c:76-83 | every emitted particle lies within the emitter radius of the emitter centre |
| `Particles.AppendedLive` | src/particles.c:74-83 | appending one particle extends the live sequence by exactly that particle |
| `Particles.AppendedAllLive` | src/particles.c:72-86 | appending a sequence extends the live sequence by exactly that sequence |
| `Particles.EmitAppendsToUnwrapped` | src/particles.c:60-87 | when the ring has not wrapped, emission appends the new particles after the old live ones |
| `Particles.AdvectOneEffect` | src/particles.c:112-126 | one pass moves and ages only its slot, and drops the head when that particle's lifetime goes negative |
| `Particles.AdvectLoop` | src/particles.c:111-127 | the loop keeps a valid ring of the same capacity and never adds particles |
| `Particles.AdvectExpiresHalf` | src/particles.c:111-127 | when every particle expires, one call removes only the first half (rounded up); the rest stay live and untouched |
| `Particles.AdvectWithoutExpiry` | src/particles.c:111-127 | when none expires, every live particle is advected once, in order, with head and count unchanged |
| `Particles.ParticleSystem.constructor` | src/particles.c:8-19 | no buffers and an empty ring; emitter at (0, 0) with radius 1; lifetime 1 |
| `Particles.ParticleSystem.Realloc` | src/particles.c:22-41 | the ring is grown to `ReallocCapacity` and fits `count + n`; the buffers are kept or freshly allocated |
| `Particles.ParticleSystem.Emit` | src/particles.c:60-87 | the ring is grown for `max * max`, then every raster point inside the disc is appended, in raster order |
| `Particles.ParticleSystem.Advect` | src/particles.c:104-128 | the ring becomes `AdvectLoop` of the sampled `u` and `v` from the old start |
| `Particles.ParticleSystem.GetCount` | src/particles.c:99-102 | the reported count is never below the number of live particles |
| `Particles.ParticleSystem.SetEmitter` | src/particles.c:48-53 | only the emitter centre and radius change |
| `Particles.ParticleSystem.SetLifetime` | src/particles.c:55-58 | only the lifetime given to new particles changes |
| `Particles.Extend` | src/particles.c:32-35 | the new buffer starts with the old contents, followed by zeros |

## Left out

- Floating point: every `float` is a Dafny `real`, so rounding, infinities and NaN are not modelled.
- `sqrtf` in the vorticity normalisation (`fluids.c:437`) is a `norm` function parameter. `EPS`, which is `FLT_MIN` (`fluids.c:9`), is a `tiny > 0` parameter.
  The bound lemma assumes only that `norm` dominates both components.
- The `printf` at `fluids.c:428` is output only and is left out. It reads cells (80, 50) and (20, 50) whatever the grid size.
- `malloc`, `calloc` and `realloc` cannot fail in the model. The assertions at `particles.c:38-39` therefore always hold.
- `calloc(n, 2*n*sizeof(float))` at `particles.c:25` over-allocates positions. The model allocates the `2*n` floats that are used.
- `realloc` leaves the new slots uninitialised. The model fills them with 0.
- Dispatch slots 5 to 11 of the twelve-entry boundary table (`fluids.c:152-153`) are never set. The model has only the five defined policies.
- The `fluids_initialize` table setup (`fluids.c:155-163`) is replaced by the `Policy` datatype.
- The context pointer that `fluids_set_with_function` passes to `fn` is left out. `fn` is a pure function of the position.
- `int` and `unsigned int` wrap-around is not modelled; counters and capacities are unbounded.
- `particles_emit` computes `dx` and `max` with `sqrtf` and `ceilf` (`particles.c:62-67`). `Particles.ParticleSystem.Emit` takes both as inputs.
- `particles_initialize`, `particles_finalize`, `particles_get_positions` and `particles_get_lifetimes` are left out: one is empty, one frees memory and two return raw pointers.
- `particles_advect` reads the fluid grid through globals. `Particles.ParticleSystem.Advect` takes the grid and the two velocity fields as explicit inputs.
- Aliasing: every `Solver` method requires its output arrays to be distinct from one another and from its inputs.
- `Particles.ParticleSystem.Realloc`: requires that the doubling loop terminates. In the source, `particles_realloc(n > 0)` after a first call with `n == 0` loops forever, because the capacity stays 0 (see `Particles.DoublingFromZeroStaysZero`). `Particles.GrowthTerminatesExactly` shows that the precondition excludes only the calls whose loop never exits.
- `Particles.ParticleSystem.Emit`: inherits the same termination requirement, for `max * max`.
- `Fluids.Solver.SetGrid`: requires `dx > 0` and at least 3 cells on each axis, which `fluids_set_grid` does not check. With fewer cells the boundary handlers overlap, and with `dx == 0` the sampler divides by zero.
- `Fluids.Solver.Diffuse`: requires `1 + 4r != 0` so that the real division at `fluids.c:319` is defined. The float code would produce an infinity.
- `Particles.ParticleSystem.GetCount`: states only that the result bounds the live count. Its body returns the capacity, as `particles.c:101` does.
