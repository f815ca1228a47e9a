# bouncier: a uniform grid of bouncing circles

`bouncierApp` simulates many circular bodies moving in a rectangular window.
Each frame, every body moves by its velocity and bounces off the window's edges.
It then meets every other body found near it, and overlapping pairs collide
elastically and are pushed apart. To keep collision detection local, the bodies
are filed in a `UniformGrid`: a `cols` x `rows` array of buckets over the
window, where each body sits in the bucket of the cell its centre lies in.
`update` keeps that filing right as bodies move: whenever a body may have
changed cell, it is erased from its old bucket and put into its new one.

The model has five modules:

- `Scalar` (`scalar.dfy`): `clamp`, and the two float-to-int conversions the
  grid uses (`floor` and C++ truncation).
- `Vectors` (`vector2.dfy`): the `Vector2` value type over exact reals, with
  `perp`, `normalize` and `reflect`.
- `Bodies` (`circle.dfy`): `Circle` and its mass, the wall step of `update`,
  and the resolution of one overlapping pair.
- `Grid` (`grid.dfy`): `class UniformGrid`.
  - Its buckets are an `array<seq<nat>>`, and a body is its index in the
    array of bodies.
  - It also holds the bucket invariant `Tracks`: body `k` is in bucket
    `home[k]` exactly once and in no other bucket.
- `Bouncier` (`bouncier.dfy`): `class BouncierApp`, with the array of bodies,
  the grid, `setup` (as the constructor `Setup`) and `update`.
  - `update` is split into the passages it is made of: `Advance`, `Collide`,
    `CollideAll` and `Rebin`.
  - Each passage is proved to keep the bucket invariant as `update` needs it
    at that point.
  - The moving body stays filed under its previous cell until the final
    erase-and-put.
  - Every `vector::erase` receives a position that `find` actually found,
    never the end iterator.

## Model

| member | source | states |
|---|---|---|
| Scalar.Clamp | src/bouncierApp.cpp:15-21 | for `low <= high` the result lies in `[low, high]`; it is `v` inside the range, `low` below it, `high` above it; on an empty range, the first test wins for `v <= low` |
| Scalar.ClampMonotone | src/bouncierApp.cpp:15-21 | clamping into a non-empty range is monotone in the clamped value |
| Scalar.Trunc | src/bouncierApp.cpp:157-161 | `int(v)` truncates toward zero: the floor for non-negative `v`, the ceiling for negative `v` |
| Scalar.ClampTruncIsClampFloor | src/bouncierApp.cpp:157-161 | clamped into `[0, high]`, truncation and floor give the same cell, so the query's bounds and `getCellIndexForPosition` agree |
| Vectors.Add | src/bouncierApp.cpp:41-43 | `operator+`, componentwise; no contract; characterised by AlongNormal |
| Vectors.Sub | src/bouncierApp.cpp:45-47 | `operator-`, componentwise; no contract; characterised by ExchangeAlongNormal and ResolveKeepsMidpoint, which subtract velocities and centres |
| Vectors.Dot | src/bouncierApp.cpp:48-50 | `operator*` on two vectors, the dot product; no contract; characterised by AlongNormal and PerpProperties |
| Vectors.Scale | src/bouncierApp.cpp:52-54 | `v * s`, and likewise `s * v` at lines 80-82, which computes the same vector; no contract; characterised by AlongNormal |
| Vectors.Neg | src/bouncierApp.cpp:56-58 | unary `operator-`; no contract; characterised by PerpProperties, where two quarter turns give the negated vector |
| Vectors.Perp | src/bouncierApp.cpp:60-62 | the quarter turn `(-y, x)`; no contract; characterised by PerpProperties |
| Vectors.SqMag | src/bouncierApp.cpp:63 | the squared magnitude is never negative |
| Vectors.Normalize | src/bouncierApp.cpp:65-74 | below magnitude 0.00001 the vector is unchanged; otherwise the result is a unit vector, the input scaled by `1/mag` |
| Vectors.PerpProperties | src/bouncierApp.cpp:60-62 | `perp` is orthogonal to its argument and keeps its length, and applying it twice negates |
| Vectors.AlongNormal | src/bouncierApp.cpp:41-63 | adding `t*d` changes the coordinate along `d` by `t*|d|^2`, keeps the coordinate across `d`, and changes the squared length by `2t(v·d) + t^2|d|^2` |
| Vectors.Reflect | src/bouncierApp.cpp:84-87 | `incident + normal*((incident·normal)*-2)`; no contract; characterised by ReflectProperties |
| Vectors.ReflectProperties | src/bouncierApp.cpp:84-87 | reflecting in a unit normal negates the normal component, keeps the tangential one and the length, and undoes itself |
| Bodies.Mass | src/bouncierApp.cpp:93 | `radius*radius*π + 1`, with the source's literal for π; no contract; characterised by MassAtLeastOne and MassIncreasing |
| Bodies.MassAtLeastOne | src/bouncierApp.cpp:93 | the mass is at least 1, and more than 1 for any nonzero radius |
| Bodies.MassIncreasing | src/bouncierApp.cpp:93 | the mass grows strictly with the radius |
| Bodies.Touches | src/bouncierApp.cpp:215-226 | the wall tests of the step, `pos - radius <= 0` or `pos + radius >= extent`, on either axis; no contract; characterised by WallStep, whose velocity flips happen exactly when it holds |
| Bodies.WallAxis | src/bouncierApp.cpp:215-221 | one axis of the wall step: a body touching or crossing the low edge is put at `radius`; otherwise one touching or crossing the high edge is put at `extent - radius`; either way its velocity is negated; any other body is unchanged; when the body fits (`2r <= extent`), the centre ends in `[r, extent - r]` |
| Bodies.WallStep | src/bouncierApp.cpp:215-229 | the y axis and then the x axis: the radius is kept; on each axis the centre is put at `radius` if the body touches the low edge, else at `extent - radius` if it touches the high edge, else left alone; each velocity component is negated exactly when that axis touched a wall; on each axis where the body fits, the centre ends in `[r, extent - r]` |
| Bodies.Elastic1DProperties | src/bouncierApp.cpp:246-255 | the one-dimensional exchange conserves momentum and kinetic energy and reverses the relative speed; equal masses swap speeds |
| Bodies.Exchange | src/bouncierApp.cpp:246-255 | the source's velocity formula written out term by term; no contract; characterised by ExchangeAlongNormal against Elastic1D |
| Bodies.ExchangeAlongNormal | src/bouncierApp.cpp:246-255 | the source's velocity formula changes each velocity only along `d`, by the change of its one-dimensional elastic speed |
| Bodies.Resolve | src/bouncierApp.cpp:246-263 | the pair resolution keeps both radii |
| Bodies.ResolveVelocities | src/bouncierApp.cpp:246-257 | both masses are at least 1, and the new velocities are the old ones moved along `d` by the one-dimensional elastic change |
| Bodies.ResolveConservesMomentum | src/bouncierApp.cpp:246-257 | `o.mass()*o.vel + c.mass()*c.vel` is the same after the resolution, whatever `d` is |
| Bodies.ResolveKeepsTangential | src/bouncierApp.cpp:246-257 | both velocity components across `d` are kept |
| Bodies.ResolveAlongUnitNormal | src/bouncierApp.cpp:246-257 | along a unit `d` the relative speed is reversed, and with equal masses the two along-normal speeds are swapped |
| Bodies.ResolveConservesEnergy | src/bouncierApp.cpp:246-257 | along a unit `d` the total kinetic energy is conserved |
| Bodies.ResolveKeepsMidpoint | src/bouncierApp.cpp:259-263 | `o.center += d*w; c.center -= d*w` leaves the midpoint of the two centres where it was |
| Bodies.ResolveMakesTangent | src/bouncierApp.cpp:239-263 | with `d` the centre difference divided by the distance `mag`, `d` is a unit vector, and afterwards the centres are exactly `c.radius + o.radius` apart |
| Bodies.Overlapping | src/bouncierApp.cpp:239-241 | the test `dsq <= (c.radius + o.radius)^2`, plus `0 < dsq`, which excludes the coincident centres where the source divides by zero; no contract; characterised by Contact and ContactOverlapping |
| Bodies.Contact | src/bouncierApp.cpp:239-263 | both radii are kept; a pair that does not overlap is returned unchanged |
| Bodies.ContactOverlapping | src/bouncierApp.cpp:239-263 | with a true square root, the contact of an overlapping pair conserves momentum and kinetic energy, keeps the midpoint, and leaves the two circles exactly touching |
| Grid.Find | src/bouncierApp.cpp:267 | the position of the first occurrence, or the length (the end iterator) when there is none; nothing before that position is the element |
| Grid.FindFinds | src/bouncierApp.cpp:267 | `find` stops before the end exactly when the element is in the bucket |
| Grid.EraseAt | src/bouncierApp.cpp:267 | erasing position `k` removes exactly that one element: one shorter, one fewer in the multiset, everything else in order |
| Grid.TracksEmpty | src/bouncierApp.cpp:106 | an empty grid tracks bodies that are in no bucket |
| Grid.TrackedInHomeOnly | src/bouncierApp.cpp:266-267 | a tracked body is in its home bucket and in no other |
| Grid.EraseKeeps | src/bouncierApp.cpp:266-267 | for a tracked body, `find` in its home bucket succeeds, and erasing it leaves it in no bucket and every other body where it was |
| Grid.PutKeeps | src/bouncierApp.cpp:136-138 | appending a body that is in no bucket to bucket `c` makes `c` its home and disturbs no other body |
| Grid.Moved | src/bouncierApp.cpp:266-268 | erase the body at the position `find` gives, then append it to the new cell; no contract; characterised by MovedEffect and MovedKeeps |
| Grid.MovedEffect | src/bouncierApp.cpp:266-268 | erase-then-append (`Grid.Moved`) leaves every other bucket and the number of buckets alone, takes one `id` out of the old bucket and appends `id` to the new one; when both are the same bucket its contents are unchanged as a multiset, with `id` now last |
| Grid.MovedKeeps | src/bouncierApp.cpp:265-268 | (likewise at lines 271-274) erase-then-put of a tracked body gives a grid that still tracks every body, with the new bucket as that body's home; the erase is always given a found position |
| Grid.TrackedGridHoldsEachBodyOnce | src/bouncierApp.cpp:192-200 | when every body has a home, the buckets together hold exactly the bodies `0 .. n-1`, each once: `n` entries in all |
| Grid.ColumnRunMembers | src/bouncierApp.cpp:164-167 | an entry is in the run of one column exactly when it is in one of that column's cells in the row range |
| Grid.RectRunMembers | src/bouncierApp.cpp:163-168 | an entry is in the rectangle's run exactly when it is in one of the rectangle's cells |
| Grid.RectRunBounded | src/bouncierApp.cpp:163-168 | if every bucket holds only bodies, so does the rectangle's run |
| Grid.UniformGrid.constructor | src/bouncierApp.cpp:104-108 | a grid of `rows * cols` empty buckets, with the cell sizes `world_width/cols` and `world_height/rows` |
| Grid.UniformGrid.CellWidthSize | src/bouncierApp.cpp:112 | the `size_t` cell width is the cell width truncated to a whole number |
| Grid.UniformGrid.CellHeightSize | src/bouncierApp.cpp:113 | the `size_t` cell height is the cell height truncated to a whole number |
| Grid.UniformGrid.CellIndex | src/bouncierApp.cpp:121-125 | the flat index is a valid bucket, and for a column below `cols` it divides back into that row and column |
| Grid.UniformGrid.Column | src/bouncierApp.cpp:116 | the column is always below `cols`; it is `floor(x / cell_width)` whenever that is already in range, 0 left of the grid and `cols - 1` right of it |
| Grid.UniformGrid.Row | src/bouncierApp.cpp:117 | the row is always below `rows`; it is `floor(y / cell_height)` whenever that is already in range, 0 above the grid and `rows - 1` below it |
| Grid.UniformGrid.CellIndexForPosition | src/bouncierApp.cpp:115-125 | any position, even one outside the window, gets a valid bucket, so the assertion in `getCellIndex` never fails; the index's column and row are the clamped cell of the position |
| Grid.UniformGrid.Put | src/bouncierApp.cpp:131-138 | the body is appended once, at the end of the bucket for its centre; no other bucket changes |
| Grid.UniformGrid.CellIndexOf | src/bouncierApp.cpp:140-149 | the smallest bucket index whose bucket holds the body, or `(size_t)-1` when none does, which on any grid of at most `(size_t)-1` buckets is no bucket index |
| Grid.UniformGrid.QueryColumn | src/bouncierApp.cpp:157-158 | the query's truncating column bound is the column `getCellIndexForPosition` gives |
| Grid.UniformGrid.QueryRow | src/bouncierApp.cpp:160-161 | the query's truncating row bound is the row `getCellIndexForPosition` gives |
| Grid.UniformGrid.GetObjectsInRect | src/bouncierApp.cpp:152-170 | the result is the buckets of columns `x_min..x_max` (outer) and rows `y_min..y_max` (inner) concatenated in loop order, with the bounds clamped, so no cell outside the grid is read |
| Grid.UniformGrid.RectCoversPoint | src/bouncierApp.cpp:152-161 | the cell of every point of the query rectangle lies within the query's column and row bounds |
| Grid.UniformGrid.RectQuerySeesPoint | src/bouncierApp.cpp:152-170 | the query returns every body filed under the cell of any point of its rectangle |
| Grid.UniformGrid.NeighbourhoodQuery | src/bouncierApp.cpp:152-170 | with whole cell sizes, the query `update` makes around a point of the window returns every body in the 3 x 3 block of cells around the point's cell, clipped at the grid's edges |
| Grid.UniformGrid.ColumnNeighbours | src/bouncierApp.cpp:157-158 | one cell width either side of an abscissa of the window, the columns enclose both neighbouring columns |
| Grid.UniformGrid.RowNeighbours | src/bouncierApp.cpp:160-161 | one cell height either side of an ordinate of the window, the rows enclose both neighbouring rows |
| Grid.UniformGrid.TruncatedWindowMissesNeighbour | src/bouncierApp.cpp:112 | in a window 19 wide with 10 columns, the truncated `cellWidth()` is 1, and the query around abscissa 11.3 (column 5) starts at column 5, which misses column 4 |
| Bouncier.PutAll | src/bouncierApp.cpp:192-200 | putting every body into the empty grid, in order, leaves each filed exactly once, under the cell of its centre |
| Bouncier.PutNext | src/bouncierApp.cpp:199 | one step of that loop: a body in no bucket so far is appended to its home bucket, and the grid tracks it there |
| Bouncier.BouncierApp.Setup | src/bouncierApp.cpp:188-201 | a `cols` x `rows` grid over the window, with the given bodies each filed exactly once, under the cell of its centre |
| Bouncier.BouncierApp.Rebin | src/bouncierApp.cpp:266-268 | the same passage for the moving body is at lines 272-274: the body is found in the bucket of its previous centre, erased there, and appended to the bucket of its current centre; nothing else changes |
| Bouncier.BouncierApp.Collide | src/bouncierApp.cpp:234-269 | the two bodies become their `Contact`; if they overlapped, the candidate is moved from the bucket of its old centre to the bucket of its new one, otherwise the grid is unchanged; the invariant is kept, with the moving body still under its previous cell; no radius changes |
| Bouncier.BouncierApp.Advance | src/bouncierApp.cpp:211-229 | only the moving body changes: it is moved by its velocity and then given the wall step |
| Bouncier.CollideSeq | src/bouncierApp.cpp:233-263 | the bodies after body `i` has met each candidate but itself, in order: no radius changes, and only body `i` and the candidates can change |
| Bouncier.TotalMomentumUpdate | src/bouncierApp.cpp:256-263 | replacing one body changes the total momentum of all bodies by exactly the change of its own |
| Bouncier.ContactKeepsTotalMomentum | src/bouncierApp.cpp:239-263 | with a true square root, one contact conserves the total momentum of all the bodies |
| Bouncier.CollideSeqKeepsTotalMomentum | src/bouncierApp.cpp:233-270 | with a true square root, the whole candidate loop conserves the total momentum of all the bodies |
| Bouncier.BouncierApp.CollideAll | src/bouncierApp.cpp:233-270 | after the moving body has met every candidate except itself, the bodies are `CollideSeq` of the old ones and the candidates, and the invariant still holds, with the moving body under its previous cell; for any `sqrt` |
| Bouncier.BouncierApp.Update | src/bouncierApp.cpp:207-277 | after the frame, every body is again filed exactly once, under the cell of its current centre, and no body changes size, whatever `sqrt` returns |
| Bouncier.QueryYieldsBodies | src/bouncierApp.cpp:231-234 | every candidate the query returns is a body, so `*candidates[j]` is always a valid body |

## Left out

- Window, rendering and input (`draw`, `mouseDown`, `toV`, the Cinder app plumbing): not part of the simulation. The window's size is a parameter of `Setup` and `Update`.
- `randFloat`: a library call. `Setup` takes the initial bodies as a parameter of any length, in place of `N_BALLS` random ones.
- `N_BALLS = 1000` and the 10 x 10 grid: generalised to any number of bodies and any `cols > 0`, `rows > 0`.
- IEEE-754 single precision: coordinates, velocities and masses are exact reals, so rounding and NaN are not modelled.
- `sqrt`: a library call. `Update`, `CollideAll`, `Collide` and `Contact` take it as a function parameter. The bucket bookkeeping is proved for any `sqrt`; only the physics lemmas assume a true square root (`IsSqrt`).
- `Vector2::mag` is not a separate member: `Normalize` takes the magnitude from its caller.
- Bodies.Contact: where two centres coincide (`dsq == 0`), the source divides by zero. The model leaves such a pair alone, so its grid bookkeeping does not run either.
- Integer widths: the `int` casts of `floor` and of the truncation in the query are unbounded integers, so overflow for coordinates beyond the `int` range is not modelled. `(size_t)-1` is the 64-bit value `SizeMax`.
- An inexact `sqrt`: the test `mag != 0.0` in `Contact` is only reachable for a `sqrt` that is not a square root; with `IsSqrt` it never fails.
- `nRows`, `nCols`, `getCell` and `getCellForPosition`: trivial accessors, inlined where the source uses them.
- `Vector2::operator+=` and `operator-=`, and the in-place `normalize`: modelled as value-returning functions, since `Vector2` is a plain value and nothing aliases it.
- `reflect` is never called by the simulation; it is modelled with its properties all the same.
- Bodies.MassAtLeastOne: states mass > 1 only for nonzero radii. At radius 0 the mass is exactly 1, so "always > 1" would be false.
- Bodies.WallStep: wall containment holds right after the wall step. A later collision push can move a centre outside the window again, as in the source.
- Bouncier.BouncierApp.Update: the contract is the bucket invariant and the unchanged radii, not the full new state. The body positions and velocities after a whole frame are described only through the passages `Advance`, `CollideAll` (by `CollideSeq`) and `Rebin`.
- Bouncier.BouncierApp.CollideAll: states the new bodies exactly, but the new grid only through the bucket invariant, so the order of entries inside a bucket is not stated.
- Grid.UniformGrid.NeighbourhoodQuery: holds only when the cell sizes are whole numbers and the query point is inside the window.
  - The source passes the truncated `cellWidth()` and `cellHeight()` as the query's sides, which are integers, so for other sizes the window is narrower than one cell either side. `TruncatedWindowMissesNeighbour` shows this.
  - Outside the window the cell is clamped to the edge, and the window then does not reach the neighbouring cell.
