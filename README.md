# SimpleSpace particle updater, modelled in Dafny

SimpleSpace is a small Swing toy. Circular particles move in a window, pull
on each other by gravity, merge when their centres coincide, bounce off the
walls and exchange momentum when they touch. This project models the
simulation core of `src/diddies`:

- **`Velocity`** (module `Motion`, `Velocity.dfy`) is a class with two
  `real` fields. Its value is the datatype `Vec`. Every write through
  `setValues` stores `max(c, -1)` per component (`Stored`, `Clamped`): the
  cap at 1 is written first and then overwritten by the second assignment,
  which starts again from the original argument. The model keeps this
  behaviour, and `UpperBoundNotEnforced` shows that the documented range
  [-1, 1] is not an invariant.
- **`Particle`** (module `Bodies`, `Particle.dfy`) is a class whose value is
  the datatype `Body`. Java's truncating `int / int` is `Quot`, so the
  growth on absorption is the floor of a quarter of the absorbed diameter:
  `Math.ceil` sees an integer that is already rounded.
- **One tick of `Updater.run()`** (module `Ticks`, `Tick.dfy`) is stated as
  recursive functions on values, one per loop of the source. Each function
  does the work left from the loop index on:
  - `IntegrateFrom` is the momentum pass;
  - `GravityPair`, `GravityRow` and `GravityFrom` are the gravity pass;
  - `WallCheck`, `CollidePair`, `CollisionRow` and `CollideFrom` are the
    wall and collision pass;
  - `CompactFrom` is `removeAll`.
- **`Updater`** (module `Simulation`, `Updater.dfy`) is a class holding:
  - the particle list, the removal list, the gravity switch and the size
    counter;
  - a ghost list `marked` with the index each removal entry was taken from.

  `run()` is split into one method per loop, and each loop is proved against
  its function in `Ticks`. `Run` ends in the state that `Resolve` followed by
  `Compact` describes.
- **`TickProperties`** (`TickProperties.dfy`) proves what a tick does:
  - absorption: ties go to the later index, and no velocity changes;
  - attraction: only the two velocities change. For equal masses the two
    pulls are antiparallel when cos and sin of the angle plus PI are the
    negations of cos and sin of the angle, and the first pull lies in
    (-1, 1] on both axes; otherwise the second pull is cut at -1;
  - walls: a particle strictly past a wall is put back inside (one that
    only touches it, at x = 0 say, is not moved), and a velocity in
    [-1, 1] has the crossing component reflected. Above 1 the opposite is
    cut at -1, so (1.5, 0) leaves a side wall as (-1, 0), and (0.5, 1.5)
    leaves the left wall as (-0.5, 2);
  - collisions: equal masses with velocities in [-1, 1] exchange their
    velocities exactly. Outside that range the cut at -1 breaks the
    exchange;
  - removal: the list shrinks by the counter's decrement exactly when no
    index was marked twice.

The behaviour of the code as written is kept throughout, including:

- in a row of the gravity loop, the centre of particle `i` is taken once,
  at the start of the row, and is not refreshed after `i` grows by
  absorbing. `StaleCentre` shows a later particle that sits on the grown
  centre being attracted rather than absorbed;
- an absorbed particle stays in the list until the end of the tick. It
  keeps interacting, so it can be absorbed a second time.
  `MarkedTwiceExample` shows three equal particles with one centre: one
  survivor of mass 4 is left from a total mass of 3, and the counter drops
  by 3 while only 2 particles leave.

## Model

| member | source | states |
|---|---|---|
| Motion.Stored | src/diddies/Velocity.java:98-103 | a stored component is at least -1 and at least the argument, and is either the argument or -1 |
| Motion.Velocity.constructor | src/diddies/Velocity.java:44-46 | the new velocity holds the arguments as setValues stores them, so both components are at least -1 |
| Motion.Velocity.ApplyVelocity | src/diddies/Velocity.java:54-57 | the new value is the component-wise sum of the two old values, stored through setValues |
| Motion.Velocity.Duplicate | src/diddies/Velocity.java:64-66 | a fresh object whose value is the re-stored copy; a settled velocity is copied exactly |
| Motion.Velocity.GetOpposite | src/diddies/Velocity.java:72-74 | a fresh object holding both components times -1, stored; exactly the negation inside [-1, 1] |
| Motion.Velocity.SetValues | src/diddies/Velocity.java:98-103 | each component ends as max(c, -1); a component above 1 is kept as given |
| Motion.Velocity.SetX | src/diddies/Velocity.java:108-110 | x is written unclamped and y is unchanged |
| Motion.Velocity.SetY | src/diddies/Velocity.java:115-117 | y is written unclamped and x is unchanged |
| Motion.UpperBoundNotEnforced | src/diddies/Velocity.java:98-103 | a component above 1 is stored unchanged, so a stored velocity can leave [-1, 1] |
| Motion.UnitStoredExactly | src/diddies/Velocity.java:98-103 | storing a velocity already in [-1, 1] gives it back |
| Motion.StoredIdempotent | src/diddies/Velocity.java:98-103 | storing twice is the same as storing once |
| Motion.CopyExact | src/diddies/Velocity.java:64-66 | duplicating a velocity whose components are at least -1 gives the same value |
| Motion.OppositeExact | src/diddies/Velocity.java:72-74 | inside [-1, 1] the opposite is the exact negation |
| Motion.Nullify | src/diddies/Updater.java:209 | adding its own opposite to a velocity in [-1, 1] gives (0, 0) |
| Motion.NullifyIncompleteAboveOne | src/diddies/Velocity.java:72-74 | for x = 3 the opposite is cut at -1 and the cancellation leaves 2 |
| Bodies.Quot | src/diddies/Particle.java:56 | Java's division of an int by a positive int: the quotient times the divisor lies within one divisor of the dividend, on the dividend's side of zero |
| Bodies.Particle.constructor | src/diddies/Particle.java:39-45 | a particle at rest with the given position and mass and twice the radius as diameter, owning a fresh velocity |
| Bodies.Particle.Absorb | src/diddies/Particle.java:54-58 | the masses add, the diameter grows by the truncated quarter of the other's, the position and velocity stay |
| Bodies.Particle.ApplyForce | src/diddies/Particle.java:65-67 | the velocity becomes the stored sum with v; position, mass and diameter are unchanged |
| Bodies.Particle.ApplyElasticForce | src/diddies/Particle.java:79-85 | the velocity gains the per-axis elastic-collision formula against (force, sourceMass), stored through setValues |
| Bodies.Particle.ApplyMomentum | src/diddies/Particle.java:92-95 | the position moves by the velocity; nothing else changes |
| Bodies.Particle.GetCenterMass | src/diddies/Particle.java:127-130 | the centre is the corner offset by the truncated half-diameter on both axes |
| Bodies.Particle.SetLocation | src/diddies/Particle.java:220-222 | the position becomes (px, py); nothing else changes |
| Bodies.AbsorbGrowth | src/diddies/Particle.java:54-58 | for a non-negative diameter the growth is diameter / 4 rounded down and the diameter never shrinks |
| Bodies.AbsorbRoundsDown | src/diddies/Particle.java:56 | absorbing a diameter of 6 adds 1, not ceil(1.5) = 2 |
| Bodies.MovedByVelocity | src/diddies/Particle.java:92-95 | momentum moves x and y by the velocity and keeps velocity, mass and diameter |
| Bodies.CenterOffset | src/diddies/Particle.java:127-130 | for a non-negative diameter the centre is the corner plus the floor of half the diameter |
| Bodies.BouncedFromRest | src/diddies/Particle.java:79-85 | a body at rest takes 2 * sourceMass * force / (mass + sourceMass) per axis, stored |
| Bodies.ElasticFromRest | src/diddies/Particle.java:82-83 | from rest the self term of the elastic formula vanishes |
| Bodies.BouncedEqualMassAtRest | src/diddies/Particle.java:79-85 | with equal masses a body at rest takes over an incoming velocity in [-1, 1] exactly |
| Bodies.HalfShare | src/diddies/Particle.java:82-83 | with equal masses the exchange term 2 m v / (m + m) equals v |
| Ticks.IntegrateFrom | src/diddies/Updater.java:102-104 | the bodies before index i are untouched and every body from i on is moved by its velocity |
| Ticks.DistanceSq | src/diddies/Updater.java:144 | the squared distance is non-negative and zero exactly when the points coincide |
| Ticks.Square | src/diddies/Updater.java:144 | a square is non-negative and zero exactly at zero |
| Ticks.Attraction | src/diddies/Updater.java:142-154 | both attraction velocities of a non-coincident pair have components of at least -1 |
| Ticks.Toward | src/diddies/Updater.java:151-154 | a force split along an angle and divided by a mass is stored, so it is at least -1 per component |
| Ticks.GravityPair | src/diddies/Updater.java:123-158 | one inner step keeps the length and fitness, changes only bodies i and j, and appends i, j or nothing to the removal marks |
| Ticks.GravityRow | src/diddies/Updater.java:121-159 | the rest of row i keeps the length and fitness and only appends marks, each one an index from i on |
| Ticks.GravityFrom | src/diddies/Updater.java:117-160 | the gravity loop from row i keeps the length and fitness and only appends marks, each one an index from i on |
| Ticks.WallCheck | src/diddies/Updater.java:167-196 | the wall check keeps mass and diameter, and keeps a fit body fit |
| Ticks.CollidePair | src/diddies/Updater.java:203-215 | a collision changes only the velocities of i and j, and keeps every body fit |
| Ticks.Struck | src/diddies/Updater.java:209-213 | one side of a collision keeps mass, diameter and position and leaves a stored velocity |
| Ticks.CollisionRow | src/diddies/Updater.java:199-216 | the collision row keeps the length, fitness, masses, diameters and positions |
| Ticks.CollideFrom | src/diddies/Updater.java:164-217 | the combined loop keeps the length, fitness, masses and diameters |
| Ticks.Resolve | src/diddies/Updater.java:101-217 | a tick before removal keeps the length and fitness, every mark is a valid index, and nothing is marked with gravity off |
| Ticks.CompactFrom | src/diddies/Updater.java:220 | the compaction holds at most the bodies from k on, and only bodies of that part |
| TickProperties.AbsorptionPair | src/diddies/Updater.java:129-139 | a coincident pair: the strictly heavier first body absorbs the second and j is marked, otherwise j absorbs i and i is marked; no velocity changes |
| TickProperties.AbsorptionTieGoesToLater | src/diddies/Updater.java:130-136 | on equal masses index i is marked and body j doubles its mass |
| TickProperties.AttractionPair | src/diddies/Updater.java:142-158 | a non-coincident pair marks nothing and only adds the two attractions to the two velocities |
| TickProperties.AttractionAntiparallel | src/diddies/Updater.java:151-154 | for equal masses, when cos and sin of angle + PI are the negations of cos and sin of the angle and the first pull lies in (-1, 1] on both axes, the two pulls are opposite |
| TickProperties.NegatedShare | src/diddies/Updater.java:153-154 | negating the cosine or sine negates the share of the force |
| TickProperties.WallSide | src/diddies/Updater.java:172-183 | at a side wall x is reset to 1 or width - diameter - 1 when past the wall, y stays, and a velocity in [-1, 1] has its x reflected |
| TickProperties.WallEnd | src/diddies/Updater.java:184-196 | clear of the sides but at the top or bottom: the same with the axes swapped |
| TickProperties.WallSideExcludesEnd | src/diddies/Updater.java:172-196 | a particle at a side wall whose velocity is in [-1, 1] keeps its y position and y velocity in that check |
| TickProperties.WallClear | src/diddies/Updater.java:172-196 | a particle clear of every wall is not changed |
| TickProperties.WallExample | src/diddies/Updater.java:175-183 | diameter 10 at x = -1 moving (-0.3, 0.1) in a 100-wide space ends at x = 1 moving (0.3, 0.1) |
| TickProperties.CollisionExchange | src/diddies/Updater.java:203-215 | each colliding body ends with 2 m_other v_other / (m1 + m2) per axis, from the velocities taken before either changed |
| TickProperties.CollisionFirst | src/diddies/Updater.java:209-210 | the first body's velocity after the collision is the elastic share of the second's |
| TickProperties.CollisionSecond | src/diddies/Updater.java:212-213 | the second body's velocity after the collision is the elastic share of the first's |
| TickProperties.CollisionSides | src/diddies/Updater.java:205-213 | both sides are struck with the true pre-collision velocities, because settled velocities copy exactly |
| TickProperties.CancelThenBounce | src/diddies/Updater.java:209-210 | cancelling its own velocity and then applying the elastic formula leaves the body with the other's share |
| TickProperties.CollisionSwapsEqualMasses | src/diddies/Updater.java:203-215 | with equal masses and velocities in [-1, 1] the two velocities are exchanged exactly |
| TickProperties.StruckEqualMass | src/diddies/Updater.java:209-213 | one side of an equal-mass collision with both velocities in [-1, 1] leaves with the other's velocity |
| TickProperties.CollisionExample | src/diddies/Updater.java:203-215 | equal masses moving (0.5, 0) and (-0.5, 0) trade velocities |
| TickProperties.ElementsCount | src/diddies/Updater.java:221 | a list has as many distinct entries as entries exactly when none repeats |
| TickProperties.CompactCount | src/diddies/Updater.java:220 | compaction from k keeps exactly the bodies of [k, n) whose index is not marked, by count |
| TickProperties.CompactKeeps | src/diddies/Updater.java:220 | an unmarked body is kept, and a marked index makes the result shorter |
| TickProperties.SizeKeptIffNoDuplicates | src/diddies/Updater.java:220-221 | the list shrinks by the counter's decrement exactly when no index was marked twice |
| TickProperties.CompactUnmarked | src/diddies/Updater.java:220 | with nothing marked compaction keeps the whole list |
| TickProperties.NoGravityNoRemoval | src/diddies/Updater.java:116 | with gravity off nothing is marked and the tick keeps every body |
| TickProperties.MarkedTwiceExample | src/diddies/Updater.java:117-139 | three coincident unit masses: marks [0, 0, 1], one survivor of mass 4, and the counter falls by more than the list shrinks |
| TickProperties.ThreeCoincident | src/diddies/Updater.java:117-139 | the gravity pass of that example absorbs body 0 twice and body 1 once |
| TickProperties.RowZero | src/diddies/Updater.java:119-139 | row 0 of that example: body 0 is absorbed by body 1 and then by body 2 |
| TickProperties.StaleCentre | src/diddies/Updater.java:119-139 | body 0 absorbs body 1 and its new centre coincides with body 2's, yet the row still uses the old centre: only index 1 is marked and body 2 keeps its mass |
| TickProperties.RowOne | src/diddies/Updater.java:119-139 | row 1 of that example: body 2 absorbs body 1 |
| Simulation.Without | src/diddies/Updater.java:220 | removeAll keeps from ps[k..] exactly the particles not on the removal list |
| Simulation.Updater.constructor | src/diddies/Updater.java:38-42 | an empty updater with an empty removal list, counter 0 and gravity on |
| Simulation.Updater.AddParticle | src/diddies/Updater.java:51-56 | the particle is appended and the counter goes up by one; the updater stays valid |
| Simulation.Updater.ContainedInParticles | src/diddies/Updater.java:64-74 | true exactly when some particle contains the point |
| Simulation.Updater.IsFull | src/diddies/Updater.java:89-91 | full exactly when the counter has reached 10 |
| Simulation.Updater.ToggleGravity | src/diddies/Updater.java:232-234 | the gravity switch flips and nothing else changes |
| Simulation.Updater.UsingGravity | src/diddies/Updater.java:241-243 | the result is the gravity switch |
| Simulation.Updater.Run | src/diddies/Updater.java:99-226 | the new bodies are the compaction of the resolved tick, the counter drops by the number of marks, and a particle survives exactly when its index was never marked |
| Simulation.Updater.Interact | src/diddies/Updater.java:101-217 | the three loops before removal leave the bodies and marks that Resolve describes |
| Simulation.Updater.RemoveMarked | src/diddies/Updater.java:219-222 | removeAll gives the compaction of the values, the counter drops by the length of the removal list, and the list is cleared |
| Simulation.Updater.IntegrationPass | src/diddies/Updater.java:102-104 | the momentum loop moves every particle by its velocity |
| Simulation.Updater.MomentumStep | src/diddies/Updater.java:103 | particle i moves by its velocity; no other particle changes |
| Simulation.Updater.GravityPass | src/diddies/Updater.java:116-161 | the gravity loop ends in the state GravityFrom describes |
| Simulation.Updater.GravityRowPass | src/diddies/Updater.java:119-159 | the inner loop of row i ends in the state GravityRow describes, with the centre taken once |
| Simulation.Updater.GravityRowStep | src/diddies/Updater.java:121-159 | one pass of the inner loop keeps the invariant that the rest of the row reaches the row's end state |
| Simulation.Updater.GravityStep | src/diddies/Updater.java:123-158 | one inner iteration performs exactly GravityPair |
| Simulation.Updater.MergeStep | src/diddies/Updater.java:129-139 | the heavier particle absorbs the other, which is put on the removal list; on equal masses j absorbs i |
| Simulation.Updater.MarkRemoved | src/diddies/Updater.java:132-135 | the particle is appended to the removal list and its index to the marks; no body changes |
| Simulation.Updater.AbsorbStep | src/diddies/Updater.java:131-134 | only particle k changes, by absorbing particle l |
| Simulation.Updater.PushOne | src/diddies/Updater.java:157 | one applyForce: the velocity of particle k becomes the stored sum with f and no other particle changes |
| Simulation.Updater.AttractStep | src/diddies/Updater.java:142-158 | the two velocities gain the two attraction velocities; nothing else changes |
| Simulation.Updater.PushPair | src/diddies/Updater.java:157-158 | the two velocities gain f1 and f2; nothing else changes |
| Simulation.Updater.WallAndCollisionPass | src/diddies/Updater.java:164-217 | the combined loop ends in the state CollideFrom describes |
| Simulation.Updater.WallPass | src/diddies/Updater.java:167-196 | particle i becomes its wall check and no other particle changes |
| Simulation.Updater.SideBounce | src/diddies/Updater.java:172-183 | the side-wall branch performs the side case of the wall check |
| Simulation.Updater.EndBounce | src/diddies/Updater.java:184-196 | the top and bottom branch performs the end case of the wall check |
| Simulation.Updater.CollisionRowPass | src/diddies/Updater.java:199-216 | the collision loop of row i ends in the state CollisionRow describes |
| Simulation.Updater.ContactStep | src/diddies/Updater.java:202-215 | the pair collides exactly when the two discs intersect |
| Simulation.Updater.CollisionStep | src/diddies/Updater.java:204-214 | an intersecting pair performs exactly CollidePair |
| Simulation.Updater.Strike | src/diddies/Updater.java:209-213 | one side of a collision: cancel with the opposite of the copy, then the elastic kick |
| Simulation.Pull | src/diddies/Updater.java:151-154 | a fresh velocity holding the force split along the angle and divided by the mass |
| Simulation.RowAdvance | src/diddies/Updater.java:121-159 | after one inner gravity step the rest of the row still reaches the same end state |
| Simulation.RowUnfold | src/diddies/Updater.java:121-159 | the rest of row i from j is one inner step followed by the rest of the row from j + 1 |
| Simulation.CollisionAdvance | src/diddies/Updater.java:199-216 | after one inner collision step the rest of the row still reaches the same end state |
| Simulation.CollisionUnfold | src/diddies/Updater.java:199-216 | the rest of collision row i from j is the pair's response, when the discs overlap, followed by the rest of the row from j + 1 |
| Simulation.ValuesOfAppend | src/diddies/Updater.java:53 | the values of a concatenation are the concatenated values |
| Simulation.RemovedIffMarked | src/diddies/Updater.java:129-136 | with distinct particles a particle is on the removal list exactly when its index was marked |
| Simulation.RemovalKeepsUnmarked | src/diddies/Updater.java:220 | a particle survives removeAll exactly when its index was never marked |
| Simulation.RemovalMatchesCompaction | src/diddies/Updater.java:220 | removeAll on the particles is compaction on their values |
| Simulation.RemovalKeepsDistinct | src/diddies/Updater.java:220 | removeAll keeps the particles distinct |
| Simulation.CompactAdmissible | src/diddies/Updater.java:220 | compaction keeps every body fit |

## Left out

- `Math.atan2`, `Math.cos` and `Math.sin` are function parameters (`Trig`). `Math.PI` and the gravitational constant are the double literals, read as exact reals.
- `Particle.contains` and `Particle.intersects` build `java.awt.geom.Area` shapes from `Ellipse2D`. That geometry is not part of this model. Each test is a function parameter over the corner and diameter of the discs (`Region`, `Overlap`).
- Arithmetic is on exact reals and unbounded integers. IEEE rounding and `int` overflow are not modelled.
- Drawing is not modelled: `draw`, `drawAll`, `getColor`, the colour field and `space.repaint()`. The `println` of the absorption sound is not modelled either.
- `synchronized` blocks and the `Timer` thread that calls `run()` are not modelled. A tick is one atomic method.
- `Space` is replaced by the `width` and `height` arguments of `Run`. The user interface (`SimpleSpace`, `Space`, `SettingsMenu`) is not part of this model.
- `Particle.position` is a shared `Point2D` in the source. Here it is two fields, so aliasing of that point is not modelled.
- Simulation.Updater.AddParticle: requires a particle that is not already in the list, has its own `Velocity`, has positive mass and has a velocity of at least -1. The callers (Space.java:151-156, SettingsMenu.java:141,144) always pass a newly constructed particle with positive mass.
- Bodies.Particle.Contains and Bodies.Particle.Intersects: carry no contract. They only apply the geometry parameter.
